/** A file on the device: its inode in the inode area, its tree and its bytes. The
    operations work on a copy of the inode and write it back. */
module InodeFile {
  import opened Blocks
  import opened BitmapModel
  import opened Tree
  import opened InodeCodec
  import opened Growth
  import opened Shrinkage
  import opened FileSize
  import opened FileBytes
  import opened CacheModel
  import opened Device
  import opened Inodes
  import opened Wrappers

  /** Bytes of a file that grew are where they were. */
  lemma GrowContents(bm: Area, t0: Root, s0: seq<Block>, size0: nat, t: Root, s: seq<Block>, size: nat)
    requires FileOk(bm, t0, s0, DataBlocks(size0)) && FileOk(bm, t, s, DataBlocks(size)) && size0 <= size
    requires bm.Fits(s0) && bm.Fits(s)
    requires GrownExactly(bm, TreeOf(t0, s0, DataBlocks(size0)), TreeOf(t, s, DataBlocks(size)), s0, s)
    ensures Contents(t, s, size)[..size0] == Contents(t0, s0, size0)
  {
    hide FileOk, TreeOf, Id, Used, DataBlocks;
    forall k | 0 <= k < size0
      ensures ByteAt(t, s, k) == ByteAt(t0, s0, k)
    {
      var i := BlockIn(size, k);
      assert i == BlockIn(size0, k);
      SameBlock(bm, t0, s0, DataBlocks(size0), t, s, DataBlocks(size), i, -1, -1);
    }
  }

  /** Bytes of a file that shrank are where they were. */
  lemma ShrinkContents(bm: Area, t0: Root, s0: seq<Block>, size0: nat, t: Root, s: seq<Block>, size: nat, extra: int,
          inode: int)
    requires FileOk(bm, t0, s0, DataBlocks(size0)) && FileOk(bm, t, s, DataBlocks(size)) && size <= size0
    requires extra < bm.start && inode < bm.start
    requires ShrunkExactly(bm, TreeOf(t0, s0, DataBlocks(size0)), TreeOf(t, s, DataBlocks(size)), DataBlocks(size),
      s0, s, extra, inode)
    ensures Contents(t, s, size) == Contents(t0, s0, size0)[..size]
  {
    hide FileOk, TreeOf, Id, Used, DataBlocks;
    forall k | 0 <= k < size
      ensures ByteAt(t, s, k) == ByteAt(t0, s0, k)
    {
      var i := BlockIn(size, k);
      assert i == BlockIn(size0, k);
      SameBlock(bm, t0, s0, DataBlocks(size0), t, s, DataBlocks(size), i, extra, inode);
    }
  }

  /** The data block that holds byte k. */
  ghost function BlockIn(size: nat, k: nat): (i: nat)
    requires k < size
    ensures i < DataBlocks(size) && i == k / BLOCK_SIZE
  {
    k / BLOCK_SIZE
  }

  /** A data block of both trees has its place and contents, if all that changed is in
      the bitmap, the index blocks of the new tree, and below the bitmap. */
  lemma SameBlock(bm: Area, t0: Root, s0: seq<Block>, n0: nat, t: Root, s: seq<Block>, n: nat, i: nat, extra: int,
          inode: int)
    requires FileOk(bm, t0, s0, n0) && FileOk(bm, t, s, n) && i < n0 && i < n && extra < bm.start && inode < bm.start
    requires OnlyShrunk(bm, TreeOf(t, s, n), s0, s, extra, inode) || OnlyIndex(bm, TreeOf(t, s, n), s0, s)
    requires ClosedPart(TreeOf(t0, s0, n0), TreeOf(t, s, n)) || TreeOf(t, s, n) == Cut(TreeOf(t0, s0, n0), n)
    ensures Id(t, s, Data(i)) == Id(t0, s0, Data(i)) && 0 <= Id(t, s, Data(i)) < |s| == |s0|
    ensures s[Id(t, s, Data(i))] == s0[Id(t, s, Data(i))]
  {
    hide FileOk, Id, Used;
    MappedBlock(bm, t0, s0, n0, i);
    MappedBlock(bm, t, s, n, i);
    FileFacts(bm, t, s, n);
    var m := TreeOf(t, s, n);
    assert m[Data(i)] == TreeOf(t0, s0, n0)[Data(i)];
    assert !IsIndex(m, m[Data(i)]);
  }

  /** The result of reading len bytes at an offset of contents c into a buffer. */
  ghost predicate ReadOf(c: seq<byte>, offset: Word, len: Word, buf0: seq<byte>, ret: int, buf: seq<byte>)
    requires len as int <= |buf0| && |c| < U32
  {
    if len == 0 then ret == 0 && buf == buf0
    else if offset > |c| then ret == -1 && buf == buf0
    else
      var n := Min(len, |c| - offset);
      Returns(ret, offset, n, |c|) && buf == c[offset..offset + MovedBytes(offset, n)] + buf0[MovedBytes(offset, n)..]
  }

  lemma ReadIs(c: seq<byte>, offset: Word, len: Word, buf0: seq<byte>, ret: int, buf: seq<byte>)
    requires len as int <= |buf0| && |c| < U32
    requires len == 0 ==> ret == 0 && buf == buf0
    requires len > 0 && offset > |c| ==> ret == -1 && buf == buf0
    requires len > 0 && offset <= |c| ==>
      var n := Min(len, |c| - offset);
      Returns(ret, offset, n, |c|) && offset + MovedBytes(offset, n) <= |c| &&
        buf == c[offset..offset + MovedBytes(offset, n)] + buf0[MovedBytes(offset, n)..]
    ensures ReadOf(c, offset, len, buf0, ret, buf)
  {}

  /** Below 2 GiB that is: what there is of the len bytes is returned, and counted; at the
      end of whole blocks the count may be an error instead. */
  lemma ReadBelow(c: seq<byte>, offset: Word, len: Word, buf0: seq<byte>, ret: int, buf: seq<byte>)
    requires len as int <= |buf0| && |c| < U32 && ReadOf(c, offset, len, buf0, ret, buf)
    ensures len == 0 ==> ret == 0 && buf == buf0
    ensures len > 0 && offset > |c| ==> ret == -1 && buf == buf0
    ensures len > 0 && offset <= |c| ==>
      var n := if len <= |c| - offset then len else |c| - offset;
      && (offset + n < 0x8000_0000 ==>
          && buf == c[offset..offset + n] + buf0[n..]
          && if offset == |c| && |c| % 4096 == 0 then ret == 0 || ret == -1 else ret == n)
      && (offset >= 0x8000_0000 ==> ret == -1 && buf == buf0)
  {
    hide Returns, MovedBytes;
    if len > 0 && offset <= |c| { ReturnsMeans(ret, offset, Min(len, |c| - offset), |c|); }
  }

  /** The size that a file is given before len bytes are written at an offset. */
  function SizeFor(size: Word, offset: Word, len: Word): Word {
    Max(size, (offset + len) % U32)
  }

  /** The number of bytes that a write replaces. */
  ghost function Written(size: Word, offset: Word, len: Word): (m: nat)
    ensures m <= len
  {
    if offset > SizeFor(size, offset, len) then 0
    else MovedBytes(offset, Min(len, SizeFor(size, offset, len) - offset))
  }

  /** c after len bytes of a buffer were written at an offset: it is as long as that
      takes, and what is neither written nor was there before is not determined. The
      new size is lost if the write fails. */
  ghost predicate WriteOf(c: seq<byte>, c': seq<byte>, offset: Word, len: Word, buf: seq<byte>, ret: int)
    requires len as int <= |buf| && |c| < U32
  {
    var size, m := SizeFor(|c|, offset, len), Written(|c|, offset, len);
    && (if len == 0 then ret == 0
        else if offset > size then ret == -1
        else Returns(ret, offset, Min(len, size - offset), size))
    && |c'| == (if ret == -1 then |c| else size)
    && (forall k | offset <= k < offset + m && k < |c'| :: c'[k] == buf[k - offset])
    && forall k | 0 <= k < |c| && !(offset <= k < offset + m) :: c'[k] == c[k]
  }

  /** Below 2 GiB that is: all is written, and the size is as large as that takes. */
  lemma WriteBelow(c: seq<byte>, c': seq<byte>, offset: Word, len: Word, buf: seq<byte>, ret: int)
    requires len as int <= |buf| && |c| < U32 && WriteOf(c, c', offset, len, buf, ret)
    requires 0 < len && offset + len < 0x8000_0000
    ensures ret == len && |c'| == (if |c| < offset + len then offset + len else |c|)
    ensures c'[offset..offset + len] == buf[..len]
    ensures forall k | 0 <= k < |c| && !(offset <= k < offset + len) :: c'[k] == c[k]
  {}

  /** A write of nothing may still lengthen the file; and the other end of the range is
      at 2 GiB: from there on nothing is written, and the size stays. */
  lemma WriteEnds(c: seq<byte>, c': seq<byte>, offset: Word, len: Word, buf: seq<byte>, ret: int)
    requires len as int <= |buf| && |c| < U32 && WriteOf(c, c', offset, len, buf, ret)
    ensures len == 0 ==> ret == 0 && |c'| == (if |c| < offset then offset else |c|) && c'[..|c|] == c
    ensures 0 < len && offset >= 0x8000_0000 && offset + len < 0x1_0000_0000 ==> ret == -1 && c' == c
  {}

  /** The file grew from c to c1, and the write made it c2. */
  lemma WriteGrown(c: seq<byte>, c1: seq<byte>, c2: seq<byte>, offset: Word, len: Word, buf: seq<byte>, ret: int)
    requires len as int <= |buf| && |c| < U32 && |c1| == SizeFor(|c|, offset, len) && c1[..|c|] == c
    requires len == 0 ==> ret == 0 && c2 == c1
    requires len > 0 && offset > |c1| ==> ret == -1 && c2 == c1
    requires len > 0 && offset <= |c1| ==>
      var n := Min(len, |c1| - offset);
      Returns(ret, offset, n, |c1|) && Overlaid(c1, c2, offset, MovedBytes(offset, n), buf)
    ensures |c2| == |c1| >= |c|
    ensures WriteOf(c, if ret == -1 then c2[..|c|] else c2, offset, len, buf, ret)
  {
    hide MovedBytes, Returns;
  }

  /** What a change of one file, whose blocks were own0 and are own1, leaves to all
      others: their ids stay in use, are not taken, and their blocks keep their
      contents; and so does what is below the bitmap, but for the blocks `at`. */
  ghost predicate Spares(bm: Area, own0: set<int>, own1: set<int>, s0: seq<Block>, s: seq<Block>, at: set<int>) {
    && bm.Fits(s0) && bm.Fits(s) && |s| == |s0| && bm.start <= |s|
    && Used(bm, s0) - own0 <= Used(bm, s) - own1
    && (forall b | b in Used(bm, s0) && b !in own0 && 0 <= b < |s| :: s[b] == s0[b])
    && forall b | 0 <= b < bm.start && b !in at :: s[b] == s0[b]
  }

  lemma SparesTrans(bm: Area, own0: set<int>, own1: set<int>, own2: set<int>, s0: seq<Block>, s1: seq<Block>,
          s2: seq<Block>, at: set<int>, at': set<int>)
    requires Spares(bm, own0, own1, s0, s1, at) && Spares(bm, own1, own2, s1, s2, at')
    ensures Spares(bm, own0, own2, s0, s2, at + at')
    ensures at == {} ==> Spares(bm, own0, own2, s0, s2, at')
  {
    hide Used;
    forall b | b in Used(bm, s0) && b !in own0
      ensures b in Used(bm, s2) && b !in own2 && (0 <= b < |s0| ==> s2[b] == s0[b])
    {
      assert b in Used(bm, s0) - own0 && b in Used(bm, s1) - own1 && b in Used(bm, s2) - own2;
    }
  }

  /** The ids that a file took and does not use in the end are lost to all. */
  lemma SparesLost(bm: Area, own0: set<int>, own1: set<int>, s0: seq<Block>, s: seq<Block>, at: set<int>)
    requires Spares(bm, own0, own1, s0, s, at) && own0 <= own1
    ensures Spares(bm, own0, own0, s0, s, at)
  {
    hide Used;
    forall b | b in Used(bm, s0) - own0
      ensures b in Used(bm, s) - own0
    {
      assert b in Used(bm, s) - own1;
    }
  }

  lemma SparesFits(bm: Area, own0: set<int>, own1: set<int>, s0: seq<Block>, s: seq<Block>)
    requires Spares(bm, own0, own1, s0, s, {})
    ensures bm.Fits(s) && bm.start <= |s|
  {}

  lemma SparesSize(bm: Area, own0: set<int>, own1: set<int>, s0: seq<Block>, s: seq<Block>, at: set<int>)
    requires Spares(bm, own0, own1, s0, s, at)
    ensures |s| == |s0|
  {}

  lemma SparesMore(bm: Area, own0: set<int>, own1: set<int>, s0: seq<Block>, s: seq<Block>, at: set<int>, at': set<int>)
    requires Spares(bm, own0, own1, s0, s, at) && at <= at'
    ensures Spares(bm, own0, own1, s0, s, at')
  {
    hide Used;
  }

  lemma SparesSelf(bm: Area, t: Root, s: seq<Block>, n: nat)
    requires FileOk(bm, t, s, n)
    ensures Spares(bm, TreeOf(t, s, n).Values, TreeOf(t, s, n).Values, s, s, {})
  {
    hide FileOk, TreeOf, Used;
    FileFacts(bm, t, s, n);
  }

  lemma GrowSpares(bm: Area, t0: Root, s0: seq<Block>, n0: nat, t: Root, s: seq<Block>, n: nat)
    requires FileOk(bm, t0, s0, n0) && FileOk(bm, t, s, n) && bm.Fits(s0) && bm.Fits(s)
    requires GrownExactly(bm, TreeOf(t0, s0, n0), TreeOf(t, s, n), s0, s)
    ensures Spares(bm, TreeOf(t0, s0, n0).Values, TreeOf(t, s, n).Values, s0, s, {})
  {
    hide FileOk, TreeOf, Used, IsIndex, ClosedPart;
    FileFacts(bm, t0, s0, n0);
    FileFacts(bm, t, s, n);
    ManagedOnly(bm, s0);
    IndexManaged(bm, TreeOf(t, s, n));
  }

  /** An index block is one of the blocks of the tree. */
  lemma IndexManaged(bm: Area, m: map<Node, int>)
    requires forall x | x in m :: bm.Manages(m[x])
    ensures forall b | IsIndex(m, b) :: b in m.Values && bm.Manages(b)
  {
    forall b | IsIndex(m, b)
      ensures b in m.Values
    {
      var x :| x in m && !x.Data? && m[x] == b;
    }
  }

  lemma ShrinkSpares(bm: Area, t0: Root, s0: seq<Block>, n0: nat, t: Root, s: seq<Block>, n: nat, extra: int,
          inode: int)
    requires FileOk(bm, t0, s0, n0) && FileOk(bm, t, s, n) && extra < bm.start && inode < bm.start
    requires ShrunkExactly(bm, TreeOf(t0, s0, n0), TreeOf(t, s, n), n, s0, s, extra, inode)
    ensures Spares(bm, TreeOf(t0, s0, n0).Values, TreeOf(t, s, n).Values, s0, s, {extra, inode})
  {
    hide FileOk, TreeOf, Used, Cut, IsIndex;
    FileFacts(bm, t0, s0, n0);
    FileFacts(bm, t, s, n);
    CutWithin(TreeOf(t0, s0, n0), n);
    ManagedOnly(bm, s0);
    IndexManaged(bm, TreeOf(t, s, n));
  }

  lemma FailSpares(bm: Area, t0: Root, s0: seq<Block>, n0: nat, t: Root, s: seq<Block>, m: map<Node, int>, n: nat)
    requires FileOk(bm, t0, s0, n0) && bm.Fits(s0) && Failed(bm, t, s, m, TreeOf(t0, s0, n0), Used(bm, s0), s0, n)
    ensures Spares(bm, TreeOf(t0, s0, n0).Values, TreeOf(t0, s0, n0).Values, s0, s, {})
  {
    hide FileOk, TreeOf, Used, Failed;
    FileFacts(bm, t0, s0, n0);
    ManagedOnly(bm, s0);
    FailedIds(bm, t, s, m, TreeOf(t0, s0, n0), s0, n);
  }

  /** A grow that failed wrote index blocks that were its own or not in use before. */
  lemma FailedIds(bm: Area, t: Root, s: seq<Block>, m: map<Node, int>, m0: map<Node, int>, s0: seq<Block>, n: nat)
    requires bm.Fits(s0) && Failed(bm, t, s, m, m0, Used(bm, s0), s0, n)
    ensures bm.Fits(s) && Used(bm, s0) <= Used(bm, s) && OnlyIndex(bm, m, s0, s)
    ensures forall b | IsIndex(m, b) :: bm.Manages(b) && (b in Used(bm, s0) ==> b in m0.Values)
  {
    hide Used, Rep, Injective;
    ManagedOnly(bm, s);
    forall b | IsIndex(m, b)
      ensures bm.Manages(b) && (b in Used(bm, s0) ==> b in m0.Values)
    {
      var x :| x in m && !x.Data? && m[x] == b;
      assert m[x] in m.Values;
      assert x in m0 ==> m0[x] in m0.Values;
    }
  }

  lemma WriteSpares(bm: Area, t: Root, s0: seq<Block>, s: seq<Block>, n: nat)
    requires FileOk(bm, t, s0, n) && OnlyData(TreeOf(t, s0, n), s0, s)
    ensures Spares(bm, TreeOf(t, s0, n).Values, TreeOf(t, s0, n).Values, s0, s, {}) && |t.direct| == DIRECT
    ensures bm.start <= bm.offset
    ensures bm.Fits(s0) && bm.Fits(s) && Used(bm, s) == Used(bm, s0)
  {
    hide FileOk, TreeOf, Used;
    FileFacts(bm, t, s0, n);
    var m := TreeOf(t, s0, n);
    assert forall x | x in m :: m[x] in m.Values;
    SameBitmap(bm, s0, s);
    ManagedOnly(bm, s0);
  }

  /** A write to a file that has changed its blocks. */
  lemma DataSpares(bm: Area, t: Root, s0: seq<Block>, s1: seq<Block>, s2: seq<Block>, n: nat, own0: set<int>)
    requires FileOk(bm, t, s1, n) && OnlyData(TreeOf(t, s1, n), s1, s2)
    requires Spares(bm, own0, TreeOf(t, s1, n).Values, s0, s1, {})
    ensures Spares(bm, own0, TreeOf(t, s1, n).Values, s0, s2, {}) && |t.direct| == DIRECT && bm.start <= bm.offset
    ensures bm.Fits(s1) && bm.Fits(s2) && Used(bm, s2) == Used(bm, s1)
  {
    hide FileOk, TreeOf, OnlyData, Spares, Used;
    WriteSpares(bm, t, s1, s2, n);
    SparesTrans(bm, own0, TreeOf(t, s1, n).Values, TreeOf(t, s1, n).Values, s0, s1, s2, {}, {});
  }

  lemma PatchSpares(bm: Area, own: set<int>, s: seq<Block>, b: nat, p: Block)
    requires bm.Fits(s) && b < bm.start <= bm.offset && bm.start <= |s|
    ensures Spares(bm, own, own, s, s[b := p], {b})
  {
    hide Used;
    SameBitmap(bm, s, s[b := p]);
    ManagedOnly(bm, s);
  }

  lemma ManagedOnly(bm: Area, s: seq<Block>)
    requires bm.Fits(s)
    ensures forall id | id in Used(bm, s) :: bm.Manages(id)
  {}

  /** The first bytes are kept; those of a gap are not determined. */
  ghost predicate Resized(c: seq<byte>, c': seq<byte>, size: nat) {
    |c'| == size && c'[..Min(size, |c|)] == c[..Min(size, |c|)]
  }

  /** A file has another size: it is in order, its bytes are kept as far as they go,
      and the ids in use are the earlier ones with its old tree replaced by the new. */
  ghost predicate SizeChanged(bm: Area, r0: InodeRec, s0: seq<Block>, r: InodeRec, s: seq<Block>) {
    && r == r0.(size := r.size, root := r.root)
    && bm.Fits(s0) && bm.Fits(s) && FileOk(bm, r.root, s, DataBlocks(r.size))
    && Resized(Contents(r0.root, s0, r0.size), Contents(r.root, s, r.size), r.size)
    && Used(bm, s) == Used(bm, s0) - TreeOf(r0.root, s0, DataBlocks(r0.size)).Values +
       TreeOf(r.root, s, DataBlocks(r.size)).Values
  }

  /** The ids in use are as many more as the file has more blocks. */
  lemma UsedCount(bm: Area, r0: InodeRec, s0: seq<Block>, r: InodeRec, s: seq<Block>, at: set<int>)
    requires FileOk(bm, r0.root, s0, DataBlocks(r0.size)) && SizeChanged(bm, r0, s0, r, s)
    requires Spares(bm, TreeOf(r0.root, s0, DataBlocks(r0.size)).Values, TreeOf(r.root, s, DataBlocks(r.size)).Values,
      s0, s, at)
    ensures |Used(bm, s)| == |Used(bm, s0)| + NodeCount(DataBlocks(r.size)) - NodeCount(DataBlocks(r0.size))
  {
    hide FileOk, TreeOf, Used, DataBlocks, NodeCount, Contents, Spares, Resized, Area.Fits;
    var m0, m := TreeOf(r0.root, s0, DataBlocks(r0.size)), TreeOf(r.root, s, DataBlocks(r.size));
    FileFacts(bm, r0.root, s0, DataBlocks(r0.size));
    FileFacts(bm, r.root, s, DataBlocks(r.size));
    TreeSize(m0, DataBlocks(r0.size));
    TreeSize(m, DataBlocks(r.size));
    SparesApart(bm, m0.Values, m.Values, s0, s, at);
    SwapSizes(Used(bm, s0), m0.Values, m.Values);
  }

  lemma SparesApart(bm: Area, own0: set<int>, own1: set<int>, s0: seq<Block>, s: seq<Block>, at: set<int>)
    requires Spares(bm, own0, own1, s0, s, at)
    ensures bm.Fits(s0) && (Used(bm, s0) - own0) !! own1
  {
    hide Used;
  }

  lemma SwapSizes(u: set<int>, a: set<int>, b: set<int>)
    requires a <= u && (u - a) !! b
    ensures |u - a + b| == |u| - |a| + |b|
  {
    assert u == u - a + a;
    assert |u - a + a| == |u - a| + |a|;
  }

  lemma TreeSize(m: map<Node, int>, n: nat)
    requires Injective(m) && forall x :: x in m <==> InTree(x, n)
    ensures |m.Values| == NodeCount(n)
  {
    hide NodeCount;
    assert m.Keys == Nodes(n);
    NodesCount(n);
    ValuesCount(m);
    assert |m| == |m.Keys|;
  }

  lemma GrownChange(bm: Area, r0: InodeRec, s0: seq<Block>, r: InodeRec, s: seq<Block>)
    requires FileOk(bm, r0.root, s0, DataBlocks(r0.size)) && FileOk(bm, r.root, s, DataBlocks(r.size)) && bm.Fits(s0)
    requires bm.Fits(s)
    requires r0.size <= r.size && r == r0.(size := r.size, root := r.root)
    requires GrownExactly(bm, TreeOf(r0.root, s0, DataBlocks(r0.size)), TreeOf(r.root, s, DataBlocks(r.size)), s0, s)
    ensures SizeChanged(bm, r0, s0, r, s)
  {
    hide FileOk, TreeOf, Used, DataBlocks, Contents;
    GrowContents(bm, r0.root, s0, r0.size, r.root, s, r.size);
    FileFacts(bm, r0.root, s0, DataBlocks(r0.size));
    FileFacts(bm, r.root, s, DataBlocks(r.size));
  }

  lemma ShrunkChange(bm: Area, r0: InodeRec, s0: seq<Block>, r: InodeRec, s: seq<Block>, extra: int, inode: int)
    requires FileOk(bm, r0.root, s0, DataBlocks(r0.size)) && FileOk(bm, r.root, s, DataBlocks(r.size)) && bm.Fits(s0)
    requires bm.Fits(s)
    requires r.size <= r0.size && r == r0.(size := r.size, root := r.root) && extra < bm.start && inode < bm.start
    requires ShrunkExactly(bm, TreeOf(r0.root, s0, DataBlocks(r0.size)), TreeOf(r.root, s, DataBlocks(r.size)),
      DataBlocks(r.size), s0, s, extra, inode)
    ensures SizeChanged(bm, r0, s0, r, s)
  {
    hide FileOk, TreeOf, Used, DataBlocks, Contents, OnlyShrunk;
    ShrinkContents(bm, r0.root, s0, r0.size, r.root, s, r.size, extra, inode);
    FileFacts(bm, r0.root, s0, DataBlocks(r0.size));
    FileFacts(bm, r.root, s, DataBlocks(r.size));
    CutWithin(TreeOf(r0.root, s0, DataBlocks(r0.size)), DataBlocks(r.size));
  }

  lemma CutWithin(m: map<Node, int>, n: nat)
    ensures Cut(m, n).Values <= m.Values
  {}

  /** Within the same blocks only the size changes. */
  lemma SameChange(bm: Area, r0: InodeRec, s0: seq<Block>, r: InodeRec)
    requires FileOk(bm, r0.root, s0, DataBlocks(r0.size)) && DataBlocks(r.size) == DataBlocks(r0.size)
    requires r == r0.(size := r.size)
    ensures SizeChanged(bm, r0, s0, r, s0)
  {}

  /** The old inode t0 still describes the old file when a tree grew from its tree to m. */
  lemma OldInode(bm: Area, t0: Root, s0: seq<Block>, size0: nat, t: Root, s: seq<Block>, m: map<Node, int>)
    requires FileOk(bm, t0, s0, DataBlocks(size0)) && Laid(bm, s) && OnlyIndex(bm, m, s0, s) && Injective(m)
    requires var m0 := TreeOf(t0, s0, DataBlocks(size0));
      Rep(t, s, m0, bm.offset, bm.Limit()) && ClosedPart(m0, m) && m0.Values <= Used(bm, s)
    ensures FileOk(bm, t0, s, DataBlocks(size0)) && Contents(t0, s, size0) == Contents(t0, s0, size0)
    ensures TreeOf(t0, s, DataBlocks(size0)) == TreeOf(t0, s0, DataBlocks(size0))
  {
    hide TreeOf, Used, DataBlocks, Id, ByteAt, GetWord, RootPointer;
    var n0 := DataBlocks(size0);
    var m0 := TreeOf(t0, s0, n0);
    FileFacts(bm, t0, s0, n0);
    forall x | x in m0
      ensures Points(t0, s, m0, x)
    {
      assert Points(t0, s0, m0, x) && Points(t, s, m0, x);
    }
    RepTree(t0, s, m0, n0, bm.offset, bm.Limit());
    forall k | 0 <= k < size0
      ensures ByteAt(t0, s, k) == ByteAt(t0, s0, k)
    {
      KeptByte(bm, t0, s0, s, m, size0, k);
    }
  }

  /** A grow that ran out of ids leaves the file as its old inode describes it. */
  lemma FailedOld(bm: Area, t0: Root, s0: seq<Block>, size0: nat, t: Root, s: seq<Block>, m: map<Node, int>, n: nat)
    requires FileOk(bm, t0, s0, DataBlocks(size0)) && bm.Fits(s0)
    requires Failed(bm, t, s, m, TreeOf(t0, s0, DataBlocks(size0)), Used(bm, s0), s0, n)
    ensures FileOk(bm, t0, s, DataBlocks(size0)) && Contents(t0, s, size0) == Contents(t0, s0, size0)
    ensures TreeOf(t0, s, DataBlocks(size0)) == TreeOf(t0, s0, DataBlocks(size0))
  {
    hide TreeOf, Used, DataBlocks, FileOk, Contents, Rep, OnlyIndex, ClosedPart, Injective;
    FileFacts(bm, t0, s0, DataBlocks(size0));
    OldInode(bm, t0, s0, size0, t, s, m);
  }

  /** And so does one that did not, until the new inode is written. */
  lemma GrownOld(bm: Area, t0: Root, s0: seq<Block>, size0: nat, t: Root, s: seq<Block>, size: nat)
    requires FileOk(bm, t0, s0, DataBlocks(size0)) && FileOk(bm, t, s, DataBlocks(size)) && bm.Fits(s0) && bm.Fits(s)
    requires GrownExactly(bm, TreeOf(t0, s0, DataBlocks(size0)), TreeOf(t, s, DataBlocks(size)), s0, s)
    ensures FileOk(bm, t0, s, DataBlocks(size0)) && Contents(t0, s, size0) == Contents(t0, s0, size0)
    ensures TreeOf(t0, s, DataBlocks(size0)) == TreeOf(t0, s0, DataBlocks(size0))
  {
    hide TreeOf, Used, DataBlocks, Contents, Rep, OnlyIndex, ClosedPart, Injective;
    FileFacts(bm, t0, s0, DataBlocks(size0));
    FileFacts(bm, t, s, DataBlocks(size));
    RepPart(t, s, TreeOf(t, s, DataBlocks(size)), TreeOf(t0, s0, DataBlocks(size0)), bm.offset, bm.Limit());
    OldInode(bm, t0, s0, size0, t, s, TreeOf(t, s, DataBlocks(size)));
  }

  /** What is written to a file that has grown is written to the old one as far as it
      goes. */
  lemma WrittenOld(bm: Area, t0: Root, size0: nat, t: Root, size: nat, s: seq<Block>, s': seq<Block>)
    requires FileOk(bm, t0, s, DataBlocks(size0)) && FileOk(bm, t, s, DataBlocks(size)) && size0 <= size
    requires FileOk(bm, t, s', DataBlocks(size)) && TreeOf(t, s', DataBlocks(size)) == TreeOf(t, s, DataBlocks(size))
    requires ClosedPart(TreeOf(t0, s, DataBlocks(size0)), TreeOf(t, s, DataBlocks(size)))
    requires OnlyData(TreeOf(t, s, DataBlocks(size)), s, s')
    ensures FileOk(bm, t0, s', DataBlocks(size0)) && Contents(t0, s', size0) == Contents(t, s', size)[..size0]
    ensures TreeOf(t0, s', DataBlocks(size0)) == TreeOf(t0, s, DataBlocks(size0))
  {
    hide TreeOf, Used, DataBlocks, Id, FileOk;
    var m0, m := TreeOf(t0, s, DataBlocks(size0)), TreeOf(t, s, DataBlocks(size));
    FileFacts(bm, t0, s, DataBlocks(size0));
    FileFacts(bm, t, s, DataBlocks(size));
    FileFrame(bm, t0, s, s', DataBlocks(size0));
    forall k | 0 <= k < size0
      ensures ByteAt(t0, s', k) == ByteAt(t, s', k)
    {
      var i := BlockIn(size0, k);
      assert i == BlockIn(size, k);
      MappedBlock(bm, t0, s', DataBlocks(size0), i);
      MappedBlock(bm, t, s', DataBlocks(size), i);
      assert m0[Data(i)] == m[Data(i)];
    }
  }

  lemma KeptByte(bm: Area, t0: Root, s0: seq<Block>, s: seq<Block>, m: map<Node, int>, size0: nat, k: nat)
    requires FileOk(bm, t0, s0, DataBlocks(size0)) && FileOk(bm, t0, s, DataBlocks(size0))
    requires TreeOf(t0, s, DataBlocks(size0)) == TreeOf(t0, s0, DataBlocks(size0))
    requires Injective(m) && ClosedPart(TreeOf(t0, s0, DataBlocks(size0)), m) && OnlyIndex(bm, m, s0, s) && k < size0
    ensures ByteAt(t0, s, k) == ByteAt(t0, s0, k)
  {
    hide FileOk, TreeOf, DataBlocks, Id;
    var n0, i := DataBlocks(size0), BlockIn(size0, k);
    MappedBlock(bm, t0, s0, n0, i);
    MappedBlock(bm, t0, s, n0, i);
    FileFacts(bm, t0, s0, n0);
    var b := TreeOf(t0, s0, n0)[Data(i)];
    assert b == m[Data(i)];
    assert !IsIndex(m, b);
  }

  lemma PartOfItself(bm: Area, t: Root, s: seq<Block>, n: nat)
    requires FileOk(bm, t, s, n)
    ensures ClosedPart(TreeOf(t, s, n), TreeOf(t, s, n))
  {
    hide Used, TreeOf;
    assert forall x | x in TreeOf(t, s, n) :: Points(t, s, TreeOf(t, s, n), x);
  }

  /** A longer size: the new file, or the old one where there is no room. The inode on
      the device still describes the old one. */
  method Lengthen(d: DiskInode, size: Word, dev: BlockDevice, bm: Area) returns (ok: bool)
    requires dev.Valid() && d.Intact(bm, dev.View()) && d.size < size && bm.Fits(dev.View())
    modifies d`size, d`direct, d`indirect1, d`indirect2, dev, dev.disk, dev.cache
    ensures dev.Valid() && d.size == size
    ensures ok <==> old(GrowthFits(bm, dev.View(), d.size, size))
    ensures Spares(bm, old(d.Blocks(dev.View())).Values,
                   if ok then d.Blocks(dev.View()).Values else old(d.Blocks(dev.View())).Values,
                   old(dev.View()), dev.View(), {})
    ensures ok ==> d.Intact(bm, dev.View()) && SizeChanged(bm, old(d.Rec()), old(dev.View()), d.Rec(), dev.View())
    ensures ok ==> ClosedPart(old(d.Blocks(dev.View())), d.Blocks(dev.View()))
    ensures FileOk(bm, old(d.Ptrs()), dev.View(), DataBlocks(old(d.size)))
    ensures TreeOf(old(d.Ptrs()), dev.View(), DataBlocks(old(d.size))) == old(d.Blocks(dev.View()))
    ensures Contents(old(d.Ptrs()), dev.View(), old(d.size)) == old(d.Bytes(dev.View()))
  {
    hide BlockDevice.Valid, FileOk, TreeOf, Contents, DataBlocks, Used, NodeCount, ShrunkExactly, WrittenThenFreed,
      SizeChanged, Failed, Spares, ClosedPart, OnlyIndex;
    BlocksMonotone(d.size, size);
    ghost var r0, s0 := d.Rec(), dev.View();
    ghost var w;
    ok, w := d.Resize(size, false, dev, bm, None);
    ghost var s := dev.View();
    if !ok {
      ghost var m :| Failed(bm, d.Ptrs(), s, m, TreeOf(r0.root, s0, DataBlocks(r0.size)), Used(bm, s0), s0,
        DataBlocks(size));
      FailedOld(bm, r0.root, s0, r0.size, d.Ptrs(), s, m, DataBlocks(size));
      FailSpares(bm, r0.root, s0, DataBlocks(r0.size), d.Ptrs(), s, m, DataBlocks(size));
    } else if DataBlocks(r0.size) == DataBlocks(size) {
      assert s == s0;
      SameChange(bm, r0, s0, d.Rec());
      SparesSelf(bm, r0.root, s0, DataBlocks(size));
      PartOfItself(bm, r0.root, s0, DataBlocks(size));
    } else {
      GrownChange(bm, r0, s0, d.Rec(), s);
      GrowSpares(bm, r0.root, s0, DataBlocks(r0.size), d.Ptrs(), s, DataBlocks(size));
      GrownOld(bm, r0.root, s0, r0.size, d.Ptrs(), s, size);
    }
  }

  /** A shorter size, or the same, written through to the inode. If the stray write hits
      the block of the inode, the inode itself is repaired when it is written. */
  method Shorten(d: DiskInode, size: Word, repaired: bool, dev: BlockDevice, bm: Area, pos: Position)
    requires dev.Valid() && d.Intact(bm, dev.View()) && size <= d.size && pos.block < bm.start
    requires pos.slot < INODES_IN_BLOCK
    requires StrayOf(d.size, size, repaired) < bm.start
    modifies d`size, d`direct, d`indirect1, d`indirect2, dev, dev.disk, dev.cache
    ensures dev.Valid() && d.size == size && d.Rec().Ok()
    ensures SizeChanged(bm, old(d.Rec()), old(dev.View()), d.Rec(), dev.View())
    ensures Spares(bm, old(d.Blocks(dev.View())).Values, d.Blocks(dev.View()).Values, old(dev.View()), dev.View(),
                   {StrayOf(old(d.size), size, repaired), pos.block})
    ensures pos.block < |old(dev.View())| == |dev.View()|
    ensures StrayOf(old(d.size), size, repaired) != pos.block ==>
      dev.View()[pos.block] == PutInode(old(dev.View())[pos.block], pos.slot, d.Rec())
    ensures StrayOf(old(d.size), size, repaired) == pos.block ==>
      && GetInode(dev.View()[pos.block], pos.slot) == d.Rec()
      && Overwritten(dev.View()[pos.block], pos.slot, old(d.Blocks(dev.View())), pos.block, LastEntries(size))
  {
    hide BlockDevice.Valid, FileOk, TreeOf, Contents, DataBlocks, Used, NodeCount, GrownExactly, ShrunkExactly,
      WrittenThenFreed, SizeChanged, PutInode, GetInode, Failed, Spares, Stray, Overwritten;
    BlocksMonotone(size, d.size);
    ghost var r0, s0, stray := d.Rec(), dev.View(), StrayOf(d.size, size, repaired);
    FileFacts(bm, r0.root, s0, DataBlocks(r0.size));
    var ok;
    ghost var w;
    ok, w := d.Resize(size, repaired, dev, bm, Some(pos));
    ghost var s := dev.View();
    if DataBlocks(r0.size) == DataBlocks(size) {
      SameChange(bm, r0, s0, d.Rec());
      SizeStored(bm, r0, s0, d.Rec(), s0, pos.block, s[pos.block]);
      assert s == s0[pos.block := s[pos.block]];
      PatchSpares(bm, TreeOf(r0.root, s0, DataBlocks(r0.size)).Values, s0, pos.block, s[pos.block]);
      SparesMore(bm, TreeOf(r0.root, s0, DataBlocks(r0.size)).Values, d.Blocks(s).Values, s0, s, {pos.block},
        {stray, pos.block});
    } else {
      ShrunkChange(bm, r0, s0, d.Rec(), s, stray, pos.block);
      ShrinkSpares(bm, r0.root, s0, DataBlocks(r0.size), d.Ptrs(), s, DataBlocks(size), stray, pos.block);
    }
  }

  /** The number of entries in use in the last second-level index block of a file. */
  function LastEntries(size: nat): int {
    (DataBlocks(size) - SINGLE - 1) % WORDS + 1
  }

  /** Writes below the bitmap do not matter to the file. */
  lemma SizeStored(bm: Area, r0: InodeRec, s0: seq<Block>, r: InodeRec, s: seq<Block>, b: nat, p: Block)
    requires SizeChanged(bm, r0, s0, r, s) && b < bm.start && b < |s|
    ensures SizeChanged(bm, r0, s0, r, s[b := p])
  {
    hide FileOk, TreeOf, Contents, DataBlocks, Used;
    FileElsewhere(bm, r.root, s, DataBlocks(r.size), b, p);
    ContentsElsewhere(bm, r.root, s, r.size, b, p);
  }

  lemma ChangedOk(bm: Area, r0: InodeRec, s0: seq<Block>, r: InodeRec, s: seq<Block>)
    requires SizeChanged(bm, r0, s0, r, s) && |r0.stamps| == 3
    ensures r.Ok() && FileOk(bm, r.root, s, DataBlocks(r.size)) && r == r0.(size := r.size, root := r.root)
    ensures r0.size <= r.size ==> Contents(r.root, s, r.size)[..r0.size] == Contents(r0.root, s0, r0.size)
  {}

  lemma ChangedFacts(bm: Area, r0: InodeRec, s0: seq<Block>, r: InodeRec, s: seq<Block>)
    requires SizeChanged(bm, r0, s0, r, s)
    ensures r.kind == r0.kind && Resized(Contents(r0.root, s0, r0.size), Contents(r.root, s, r.size), r.size)
    ensures forall k | 0 <= k < r0.size && k < r.size ::
      Contents(r.root, s, r.size)[k] == Contents(r0.root, s0, r0.size)[k]
  {
    hide Contents, FileOk, Used, TreeOf;
    ResizedMeans(Contents(r0.root, s0, r0.size), Contents(r.root, s, r.size), r.size);
  }

  lemma ResizedMeans(c: seq<byte>, c': seq<byte>, size: nat)
    requires Resized(c, c', size)
    ensures |c'| == size && forall k | 0 <= k < |c| && k < size :: c'[k] == c[k]
  {
    assert forall k | 0 <= k < |c| && k < size :: c'[..Min(size, |c|)][k] == c[..Min(size, |c|)][k];
  }

  /** An index block is on disk exactly if it was before. */
  ghost predicate IndexAsBefore(m: map<Node, int>, view: seq<Block>, d0: seq<Block>, d: seq<Block>) {
    forall x | x in m && !x.Data? :: OnDisk(d, view, m[x]) <==> OnDisk(d0, view, m[x])
  }

  lemma IndexKept(bm: Area, m: map<Node, int>, view: seq<Block>, d0: seq<Block>, d1: seq<Block>, d: seq<Block>, b: nat)
    requires OnlyData(m, d0, d1) && Injective(m) && |d| == |d1| && (forall i | 0 <= i < |d| && i != b :: d[i] == d1[i])
    requires b < bm.start <= bm.offset && forall x | x in m :: bm.Manages(m[x])
    ensures IndexAsBefore(m, view, d0, d)
  {
    forall x | x in m && !x.Data?
      ensures OnDisk(d, view, m[x]) <==> OnDisk(d0, view, m[x])
    {
      assert !IsData(m, m[x]);
    }
  }

  /** Every block of the disk is as it was, but for data blocks of the file, and for its
      inode if that was asked for. */
  ghost predicate RestAsBefore(m: map<Node, int>, d0: seq<Block>, d: seq<Block>, b: int, metadata: bool) {
    && |d| == |d0|
    && forall i | 0 <= i < |d| && !(metadata && i == b) && (forall x | x in m && x.Data? :: m[x] != i) :: d[i] == d0[i]
  }

  lemma RestKept(m: map<Node, int>, d0: seq<Block>, d1: seq<Block>, d: seq<Block>, b: nat, metadata: bool)
    requires OnlyData(m, d0, d1) && |d| == |d1|
    requires forall i | 0 <= i < |d| && !(metadata && i == b) :: d[i] == d1[i]
    ensures RestAsBefore(m, d0, d, b, metadata)
  {
    hide OnlyData;
    OnlyDataMeans(m, d0, d1);
  }

  /** A file of at most 23 blocks has no index blocks. */
  lemma FewBlocks(size: Word)
    ensures size <= DIRECT * BLOCK_SIZE ==> forall x | InTree(x, DataBlocks(size)) :: x.Data?
  {}

  lemma NoStray(size0: nat, size: nat, repaired: bool)
    requires size0 <= size
    ensures StrayOf(size0, size, repaired) == -1
  {
    BlocksMonotone(size0, size);
  }

  /** The inode of a file, as its position. */
  datatype Inode = Inode(pos: Position) {

    ghost predicate Placed(bm: Area, s: seq<Block>) {
      pos.slot < INODES_IN_BLOCK && pos.block < bm.start && pos.block < |s|
    }

    ghost function Rec(bm: Area, s: seq<Block>): InodeRec
      requires Placed(bm, s)
    {
      GetInode(s[pos.block], pos.slot)
    }

    /** The inode on the device describes a file in good order. */
    ghost predicate Stored(bm: Area, s: seq<Block>) {
      Placed(bm, s) && FileOk(bm, Rec(bm, s).root, s, DataBlocks(Rec(bm, s).size))
    }

    ghost function Map(bm: Area, s: seq<Block>): map<Node, int>
      requires Placed(bm, s)
    {
      TreeOf(Rec(bm, s).root, s, DataBlocks(Rec(bm, s).size))
    }

    ghost function Bytes(bm: Area, s: seq<Block>): seq<byte>
      requires Placed(bm, s)
    {
      Contents(Rec(bm, s).root, s, Rec(bm, s).size)
    }

    /** What the inode in its slot of its block says of the file. */
    lemma StoredMeans(bm: Area, s: seq<Block>)
      requires Stored(bm, s)
      ensures pos.block < |s| && pos.slot < 32
      ensures var r := GetInode(s[pos.block], pos.slot);
        && Rec(bm, s) == r && FileOk(bm, r.root, s, DataBlocks(r.size))
        && Bytes(bm, s) == Contents(r.root, s, r.size) && Map(bm, s) == TreeOf(r.root, s, DataBlocks(r.size))
    {
      hide FileOk, TreeOf, GetInode, Contents, DataBlocks;
    }

    /** The other inodes of the block are as they were. */
    ghost predicate OthersKept(bm: Area, s0: seq<Block>, s: seq<Block>)
      requires Placed(bm, s0) && Placed(bm, s)
    {
      forall j: nat | j < INODES_IN_BLOCK && j != pos.slot :: GetInode(s[pos.block], j) == GetInode(s0[pos.block], j)
    }

    /** Writing the inode stores the file that it describes. */
    lemma StoreFile(bm: Area, s: seq<Block>, r: InodeRec)
      requires Placed(bm, s) && r.Ok() && FileOk(bm, r.root, s, DataBlocks(r.size))
      ensures var s' := s[pos.block := PutInode(s[pos.block], pos.slot, r)];
        && Stored(bm, s') && Rec(bm, s') == r && OthersKept(bm, s, s')
        && Map(bm, s') == TreeOf(r.root, s, DataBlocks(r.size)) && Bytes(bm, s') == Contents(r.root, s, r.size)
        && bm.Fits(s) && bm.Fits(s') && Used(bm, s') == Used(bm, s)
    {
      hide FileOk, TreeOf, GetInode, PutInode, Used, DataBlocks, Contents;
      var p := PutInode(s[pos.block], pos.slot, r);
      forall j: nat | j < INODES_IN_BLOCK
        ensures GetInode(p, j) == if j == pos.slot then r else GetInode(s[pos.block], j)
      {
        PutInodeGet(s[pos.block], pos.slot, r, j);
      }
      FileElsewhere(bm, r.root, s, DataBlocks(r.size), pos.block, p);
      ContentsElsewhere(bm, r.root, s, r.size, pos.block, p);
    }

    lemma Patched(bm: Area, s0: seq<Block>, s: seq<Block>, r: InodeRec)
      requires Placed(bm, s0) && Placed(bm, s) && r.Ok() && s[pos.block] == PutInode(s0[pos.block], pos.slot, r)
      ensures Rec(bm, s) == r && OthersKept(bm, s0, s)
    {
      hide GetInode, PutInode;
      forall j: nat | j < INODES_IN_BLOCK
        ensures GetInode(s[pos.block], j) == if j == pos.slot then r else GetInode(s0[pos.block], j)
      {
        PutInodeGet(s0[pos.block], pos.slot, r, j);
      }
    }

    lemma PlacedStill(bm: Area, s0: seq<Block>, s: seq<Block>, own0: set<int>, own1: set<int>)
      requires Placed(bm, s0) && Spares(bm, own0, own1, s0, s, {})
      ensures Placed(bm, s) && s[pos.block] == s0[pos.block]
    {
      hide Used;
    }

    /** Writing the inode at last. */
    lemma SparesPatched(bm: Area, own0: set<int>, own1: set<int>, s0: seq<Block>, s: seq<Block>, p: Block)
      requires Placed(bm, s) && Spares(bm, own0, own1, s0, s, {}) && bm.start <= bm.offset
      ensures Spares(bm, own0, own1, s0, s[pos.block := p], {pos.block})
    {
      hide Spares;
      SparesFits(bm, own0, own1, s0, s);
      PatchSpares(bm, own1, s, pos.block, p);
      SparesTrans(bm, own0, own1, own1, s0, s, s[pos.block := p], {}, {pos.block});
    }

    method ReadInode(dev: BlockDevice, ghost bm: Area) returns (d: DiskInode)
      requires dev.Valid() && Placed(bm, dev.View())
      modifies dev, dev.disk, dev.cache
      ensures dev.Valid() && dev.View() == old(dev.View()) && dev.history == old(dev.history)
      ensures fresh(d) && d.Rec() == Rec(bm, dev.View()) && d.Rec().Ok()
      ensures pos.block in old(dev.cache.hashtable) ==>
        dev.cache.hashtable == old(dev.cache.hashtable) && dev.disk.blocks == old(dev.disk.blocks)
    {
      hide BlockDevice.Valid, GetInode;
      var blk := dev.Read(pos.block);
      d := new DiskInode.FromRec(GetInode(blk, pos.slot));
    }

    /** Reads from the file and writes its inode back. */
    method ReadData(offset: Word, buf0: seq<byte>, len: Word, dev: BlockDevice, bm: Area)
      returns (ret: int, buf: seq<byte>)
      requires dev.Valid() && Stored(bm, dev.View()) && len as int <= |buf0|
      requires Addressable(offset, len, Rec(bm, dev.View()).size)
      modifies dev, dev.disk, dev.cache
      ensures dev.Valid() && Stored(bm, dev.View()) && Rec(bm, dev.View()) == old(Rec(bm, dev.View()))
      ensures Map(bm, dev.View()) == old(Map(bm, dev.View())) && Bytes(bm, dev.View()) == old(Bytes(bm, dev.View()))
      ensures Placed(bm, old(dev.View())) && OthersKept(bm, old(dev.View()), dev.View())
      ensures Spares(bm, Map(bm, dev.View()).Values, Map(bm, dev.View()).Values, old(dev.View()), dev.View(),
        {pos.block})
      ensures old(bm.Fits(dev.View())) && bm.Fits(dev.View()) && Used(bm, dev.View()) == old(Used(bm, dev.View()))
      ensures ReadOf(Bytes(bm, dev.View()), offset, len, buf0, ret, buf)
      ensures dev.history == old(dev.history) + if ret == -1 then [] else [dev.View()]
      ensures len == 0 ==> ret == 0 && buf == buf0
      ensures len > 0 && offset > |Bytes(bm, dev.View())| ==> ret == -1 && buf == buf0
      ensures len > 0 && offset <= |Bytes(bm, dev.View())| ==>
        var c := Bytes(bm, dev.View());
        var n := if len <= |c| - offset then len else |c| - offset;
        && (offset + n < 0x8000_0000 ==>
            && buf == c[offset..offset + n] + buf0[n..]
            && if offset == |c| && |c| % 4096 == 0 then ret == 0 || ret == -1 else ret == n)
        && (offset >= 0x8000_0000 ==> ret == -1 && buf == buf0)
    {
      hide BlockDevice.Valid, FileOk, TreeOf, GetInode, PutInode, Contents, DataBlocks, Spares, Used, MovedBytes,
        Returns, Addressable, ReadOf;
      ghost var s := dev.View();
      var d := ReadInode(dev, bm);
      ghost var own := d.Blocks(s).Values;
      ret, buf := d.ReadData(offset, buf0, len, dev, bm);
      ReadIs(d.Bytes(s), offset, len, buf0, ret, buf);
      ReadBelow(d.Bytes(s), offset, len, buf0, ret, buf);
      FileFacts(bm, d.Ptrs(), s, DataBlocks(d.size));
      SparesSelf(bm, d.Ptrs(), s, DataBlocks(d.size));
      SparesMore(bm, own, own, s, s, {}, {pos.block});
      if ret == -1 { return; }
      StoreFile(bm, s, d.Rec());
      d.WriteInode(pos, dev);
      PatchSpares(bm, own, s, pos.block, dev.View()[pos.block]);
    }

    /** A write can be made: there are ids for it, and the end is addressable. */
    ghost predicate Writable(bm: Area, s: seq<Block>, offset: Word, len: Word)
      requires Placed(bm, s)
    {
      var size := SizeFor(Rec(bm, s).size, offset, len);
      bm.Fits(s) && GrowthFits(bm, s, Rec(bm, s).size, size) && Addressable(offset, len, size)
    }

    /** What the file is after the write while its inode is still the old one. */
    lemma StoredStill(bm: Area, s0: seq<Block>, t: Root, size: nat, s: seq<Block>, s': seq<Block>)
      requires Stored(bm, s0) && Placed(bm, s') && s'[pos.block] == s0[pos.block] && Rec(bm, s0).size <= size
      requires FileOk(bm, t, s, DataBlocks(size)) && FileOk(bm, t, s', DataBlocks(size))
      requires TreeOf(t, s', DataBlocks(size)) == TreeOf(t, s, DataBlocks(size))
      requires FileOk(bm, Rec(bm, s0).root, s, DataBlocks(Rec(bm, s0).size))
      requires TreeOf(Rec(bm, s0).root, s, DataBlocks(Rec(bm, s0).size)) == Map(bm, s0)
      requires ClosedPart(Map(bm, s0), TreeOf(t, s, DataBlocks(size)))
      requires OnlyData(TreeOf(t, s, DataBlocks(size)), s, s')
      requires Spares(bm, Map(bm, s0).Values, TreeOf(t, s, DataBlocks(size)).Values, s0, s', {})
      ensures Stored(bm, s') && Rec(bm, s') == Rec(bm, s0) && OthersKept(bm, s0, s')
      ensures Map(bm, s') == Map(bm, s0) && Bytes(bm, s') == Contents(t, s', size)[..Rec(bm, s0).size]
      ensures Spares(bm, Map(bm, s0).Values, Map(bm, s0).Values, s0, s', {pos.block})
    {
      hide FileOk, TreeOf, GetInode, Contents, DataBlocks, OnlyData, Spares;
      var own0 := Map(bm, s0).Values;
      WrittenOld(bm, Rec(bm, s0).root, Rec(bm, s0).size, t, size, s, s');
      SparesLost(bm, own0, TreeOf(t, s, DataBlocks(size)).Values, s0, s', {});
      SparesMore(bm, own0, own0, s0, s', {}, {pos.block});
    }

    /** Writes to the file, which grows first if it has to. The result of growing is not
        looked at. */
    method WriteData(offset: Word, buf: seq<byte>, len: Word, dev: BlockDevice, bm: Area) returns (ret: int)
      requires dev.Valid() && Stored(bm, dev.View()) && len as int <= |buf| && Writable(bm, dev.View(), offset, len)
      modifies dev, dev.disk, dev.cache
      ensures dev.Valid() && Stored(bm, dev.View())
      ensures Placed(bm, old(dev.View())) && OthersKept(bm, old(dev.View()), dev.View())
      ensures Spares(bm, old(Map(bm, dev.View())).Values, Map(bm, dev.View()).Values, old(dev.View()), dev.View(),
        {pos.block})
      ensures WriteOf(old(Bytes(bm, dev.View())), Bytes(bm, dev.View()), offset, len, buf, ret)
      ensures old(bm.Fits(dev.View())) && bm.Fits(dev.View()) && |Used(bm, dev.View())| == old(|Used(bm, dev.View())|) +
        NodeCount(DataBlocks(SizeFor(old(Rec(bm, dev.View())).size, offset, len))) -
          NodeCount(DataBlocks(old(Rec(bm, dev.View())).size))
      ensures Rec(bm, dev.View()) ==
        old(Rec(bm, dev.View())).(size := |Bytes(bm, dev.View())|, root := Rec(bm, dev.View()).root)
    {
      hide BlockDevice.Valid, FileOk, TreeOf, GetInode, PutInode, Contents, DataBlocks, OnlyData, Used, NodeCount,
        SizeChanged, WriteOf, Spares, ClosedPart, Returns, MovedBytes, Addressable, GrowthFits, Area.Fits, Laid,
        Overlaid;
      ghost var s0 := dev.View();
      var d := ReadInode(dev, bm);
      ghost var r0, own0 := d.Rec(), Map(bm, s0).Values;
      var end := (offset + len) % U32;
      if d.size < end {
        var ok := Lengthen(d, end, dev, bm);
        UsedCount(bm, r0, s0, d.Rec(), dev.View(), {});
        ChangedOk(bm, r0, s0, d.Rec(), dev.View());
      } else {
        SparesSelf(bm, r0.root, s0, DataBlocks(r0.size));
        PartOfItself(bm, r0.root, s0, DataBlocks(r0.size));
      }
      ghost var c1, s1, own := d.Bytes(dev.View()), dev.View(), d.Blocks(dev.View()).Values;
      ret := d.WriteData(offset, buf, len, dev, bm);
      ghost var s2 := dev.View();
      DataSpares(bm, d.Ptrs(), s0, s1, s2, DataBlocks(d.size), own0);
      PlacedStill(bm, s0, s2, own0, own);
      WriteGrown(Contents(r0.root, s0, r0.size), c1, d.Bytes(s2), offset, len, buf, ret);
      if ret == -1 {
        StoredStill(bm, s0, d.Ptrs(), d.size, s1, s2);
        return;
      }
      StoreFile(bm, s2, d.Rec());
      d.WriteInode(pos, dev);
      SparesPatched(bm, own0, own, s0, s2, dev.View()[pos.block]);
    }

    /** The stray write of a change to a size does not leave the area below the bitmap. */
    ghost predicate StrayBelow(bm: Area, s: seq<Block>, size: nat, repaired: bool)
      requires Placed(bm, s)
    {
      StrayOf(Rec(bm, s).size, size, repaired) < bm.start
    }

    /** What a stray write left in the block of the inode. */
    ghost predicate NeighboursLost(bm: Area, s0: seq<Block>, s: seq<Block>, size: nat)
      requires Placed(bm, s0) && Placed(bm, s)
    {
      Overwritten(s[pos.block], pos.slot, Map(bm, s0), pos.block, LastEntries(size))
    }

    /** Changes the size of a file. A failed grow leaves the file as it was. A shrink whose
        stray write hits the block of the inode changes this file as any other does; what
        is lost is the inodes beside it. */
    method Resize(newSize: Word, repaired: bool, dev: BlockDevice, bm: Area) returns (ok: bool)
      requires dev.Valid() && Stored(bm, dev.View()) && bm.Fits(dev.View())
      requires StrayBelow(bm, dev.View(), newSize, repaired)
      modifies dev, dev.disk, dev.cache
      ensures dev.Valid() && bm.Fits(dev.View()) && Stored(bm, dev.View()) && Placed(bm, old(dev.View()))
      ensures !ok || StrayOf(old(Rec(bm, dev.View())).size, newSize, repaired) != pos.block ==>
        OthersKept(bm, old(dev.View()), dev.View())
      ensures ok && StrayOf(old(Rec(bm, dev.View())).size, newSize, repaired) == pos.block ==>
        NeighboursLost(bm, old(dev.View()), dev.View(), newSize)
      ensures ok <==>
        old(Rec(bm, dev.View()).kind == FILE && GrowthFits(bm, dev.View(), Rec(bm, dev.View()).size, newSize))
      ensures Spares(bm, old(Map(bm, dev.View())).Values, Map(bm, dev.View()).Values, old(dev.View()), dev.View(),
                     {StrayOf(old(Rec(bm, dev.View())).size, newSize, repaired), pos.block})
      ensures !ok ==>
        Rec(bm, dev.View()) == old(Rec(bm, dev.View())) && Bytes(bm, dev.View()) == old(Bytes(bm, dev.View()))
      ensures old(Rec(bm, dev.View())).kind != FILE ==> dev.View() == old(dev.View())
      ensures ok ==> Rec(bm, dev.View()).size == newSize && |Bytes(bm, dev.View())| == newSize
      ensures ok ==> forall k | 0 <= k < newSize && k < |old(Bytes(bm, dev.View()))| ::
        Bytes(bm, dev.View())[k] == old(Bytes(bm, dev.View()))[k]
      ensures ok ==> SizeChanged(bm, old(Rec(bm, dev.View())), old(dev.View()), Rec(bm, dev.View()), dev.View())
    {
      hide BlockDevice.Valid, FileOk, TreeOf, GetInode, PutInode, Contents, DataBlocks, Used, NodeCount, GrownExactly,
        ShrunkExactly, WrittenThenFreed, Failed, SizeChanged, Spares, Overwritten, Stray, StrayOf;
      ghost var s0 := dev.View();
      ghost var own0, at := Map(bm, s0).Values, {StrayOf(Rec(bm, s0).size, newSize, repaired), pos.block as int};
      var d := ReadInode(dev, bm);
      ghost var r0 := d.Rec();
      SparesSelf(bm, r0.root, s0, DataBlocks(r0.size));
      SparesMore(bm, own0, own0, s0, s0, {}, at);
      if d.kind != FILE { return false; }
      if newSize > d.size {
        NoStray(r0.size, newSize, repaired);
        ok := Lengthen(d, newSize, dev, bm);
        ghost var s1 := dev.View();
        PlacedStill(bm, s0, s1, own0, if ok then d.Blocks(s1).Values else own0);
        SparesFits(bm, own0, if ok then d.Blocks(s1).Values else own0, s0, s1);
        SparesMore(bm, own0, if ok then d.Blocks(s1).Values else own0, s0, s1, {}, at);
        if !ok { return; }
        ChangedOk(bm, r0, s0, d.Rec(), s1);
        StoreFile(bm, s1, d.Rec());
        d.WriteInode(pos, dev);
        SizeStored(bm, r0, s0, d.Rec(), s1, pos.block, dev.View()[pos.block]);
        FileFacts(bm, d.Ptrs(), s1, DataBlocks(d.size));
        SparesPatched(bm, own0, d.Blocks(s1).Values, s0, s1, dev.View()[pos.block]);
        SparesMore(bm, own0, d.Blocks(s1).Values, s0, dev.View(), {pos.block}, at);
      } else {
        BlocksMonotone(newSize, d.size);
        Shorten(d, newSize, repaired, dev, bm, pos);
        ChangedOk(bm, r0, s0, d.Rec(), dev.View());
        if StrayOf(r0.size, newSize, repaired) != pos.block { Patched(bm, s0, dev.View(), d.Rec()); }
        ok := true;
      }
      ChangedFacts(bm, r0, s0, d.Rec(), dev.View());
    }

    /** fsync: the data blocks, and for metadata the inode. Index blocks are left as they
        are on disk, so that only a file without any is on disk as a whole. */
    method Sync(metadata: bool, dev: BlockDevice, bm: Area) returns (ok: bool)
      requires dev.Valid() && Stored(bm, dev.View())
      modifies dev, dev.disk, dev.cache
      ensures dev.Valid() && dev.View() == old(dev.View()) && dev.history == old(dev.history)
      ensures |dev.disk.blocks| == |dev.View()| == |old(dev.disk.blocks)|
      ensures var m := Map(bm, dev.View()); forall x | x in m :: 0 <= m[x] < |dev.View()|
      ensures ok ==>
        var m := Map(bm, dev.View());
        forall x | x in m && (x.Data? || Rec(bm, dev.View()).size <= 23 * 4096) ::
          dev.disk.blocks[m[x]] == dev.View()[m[x]]
      ensures ok && metadata ==> dev.disk.blocks[pos.block] == dev.View()[pos.block]
      ensures var m, d0 := Map(bm, dev.View()), old(dev.disk.blocks);
        pos.block in old(dev.cache.hashtable) && (forall x | x in m :: m[x] in old(dev.cache.hashtable)) ==>
        && ok
        && (forall x | x in m && !x.Data? ::
              dev.disk.blocks[m[x]] == dev.View()[m[x]] <==> d0[m[x]] == dev.View()[m[x]])
        && forall b | 0 <= b < |d0| && !(metadata && b == pos.block) && (forall x | x in m && x.Data? :: m[x] != b) ::
             dev.disk.blocks[b] == d0[b]
    {
      hide BlockDevice.Valid, FileOk, TreeOf, GetInode, DataBlocks;
      dev.Sizes();
      FileFacts(bm, Rec(bm, dev.View()).root, dev.View(), DataBlocks(Rec(bm, dev.View()).size));
      ok := SyncFile(metadata, dev, bm);
      dev.Sizes();
    }

    /** The steps of fsync. */
    method SyncFile(metadata: bool, dev: BlockDevice, bm: Area) returns (ok: bool)
      requires dev.Valid() && Stored(bm, dev.View())
      modifies dev, dev.disk, dev.cache
      ensures dev.Valid() && dev.View() == old(dev.View()) && dev.history == old(dev.history)
      ensures ok ==> forall x | x in Map(bm, dev.View()) &&
        (x.Data? || Rec(bm, dev.View()).size <= DIRECT * BLOCK_SIZE) ::
        OnDisk(dev.disk.blocks, dev.View(), Map(bm, dev.View())[x])
      ensures ok && metadata ==> OnDisk(dev.disk.blocks, dev.View(), pos.block)
      ensures pos.block in old(dev.cache.hashtable) && Held(Map(bm, dev.View()), old(dev.cache.hashtable)) ==>
        && ok && IndexAsBefore(Map(bm, dev.View()), dev.View(), old(dev.disk.blocks), dev.disk.blocks)
        && RestAsBefore(Map(bm, dev.View()), old(dev.disk.blocks), dev.disk.blocks, pos.block, metadata)
    {
      hide BlockDevice.Valid, FileOk, TreeOf, GetInode, DataBlocks, OnDisk, Held, OnlyData, IndexAsBefore, RestAsBefore;
      ghost var d0, m := dev.disk.blocks, Map(bm, dev.View());
      var d := ReadInode(dev, bm);
      ok := d.SyncData(dev, false, bm);
      if !ok { return; }
      FileFacts(bm, d.Ptrs(), dev.View(), DataBlocks(d.size));
      FewBlocks(d.size);
      ghost var d1 := dev.disk.blocks;
      if metadata {
        ok := d.SyncBlock(pos.block, dev);
      }
      if OnlyData(m, d0, d1) {
        IndexKept(bm, m, dev.View(), d0, d1, dev.disk.blocks, pos.block);
        RestKept(m, d0, d1, dev.disk.blocks, pos.block, metadata);
      }
    }

    /** What has been written is read back, and nothing of a neighbour has changed. */
    method WriteThenRead(offset: Word, buf: seq<byte>, len: Word, other: seq<byte>, dev: BlockDevice, bm: Area)
      returns (ret: int, back: seq<byte>)
      requires dev.Valid() && Stored(bm, dev.View()) && 0 < len as int <= |buf| == |other|
      requires Writable(bm, dev.View(), offset, len)
      modifies dev, dev.disk, dev.cache
      ensures dev.Valid() && Placed(bm, old(dev.View())) && Placed(bm, dev.View())
      ensures OthersKept(bm, old(dev.View()), dev.View())
      ensures var m := Written(old(Rec(bm, dev.View())).size, offset, len);
        && (ret != -1 ==> back == buf[..m] + other[m..])
        && (offset + len < I31 ==> ret == len && m == len)
    {
      hide BlockDevice.Valid, FileOk, GetInode, Contents, Used, NodeCount, DataBlocks, TreeOf, GrowthFits, Spares;
      ghost var c0 := Bytes(bm, dev.View());
      ret := WriteData(offset, buf, len, dev, bm);
      ghost var c, w := Bytes(bm, dev.View()), ret;
      var got;
      got, back := ReadData(offset, other, len, dev, bm);
      if w != -1 { ReadWritten(c0, c, offset, len, buf, w, other, got, back); }
    }
  }

  lemma ReadWritten(c: seq<byte>, c': seq<byte>, offset: Word, len: Word, buf: seq<byte>, ret: int, other: seq<byte>,
          got: int, back: seq<byte>)
    requires 0 < len as int <= |buf| == |other| && |c| < U32 && |c'| < U32
    requires WriteOf(c, c', offset, len, buf, ret) && ret != -1 && ReadOf(c', offset, len, other, got, back)
    ensures back == buf[..Written(|c|, offset, len)] + other[Written(|c|, offset, len)..]
  {
    var m := Written(|c|, offset, len);
    assert c'[offset..offset + m] == buf[..m];
  }

  /** Byte k of a file is byte k % 4096 of data block k / 4096. */
  lemma ByteIn(bm: Area, t: Root, s: seq<Block>, size: nat, k: nat)
    requires FileOk(bm, t, s, DataBlocks(size)) && k < size
    ensures k / 4096 < DataBlocks(size) && 0 <= Id(t, s, Data(k / 4096)) < |s|
    ensures Contents(t, s, size)[k] == s[Id(t, s, Data(k / 4096))][k % 4096]
  {
    hide FileOk, TreeOf, DataBlocks, Id;
    MappedBlock(bm, t, s, DataBlocks(size), BlockIn(size, k));
  }

  /** And where data block i is, from the pointers on. */
  lemma IdWalk(bm: Area, t: Root, s: seq<Block>, n: nat, i: nat)
    requires FileOk(bm, t, s, n) && i < n
    ensures i < 23 ==> i < |t.direct| && Id(t, s, Data(i)) == t.direct[i]
    ensures 23 <= i < 1047 ==> t.indirect1 as int < |s| && Id(t, s, Data(i)) == GetWord(s[t.indirect1], i - 23)
    ensures 1047 <= i ==>
      && t.indirect2 as int < |s| && (i - 1047) / 1024 < 1024
      && GetWord(s[t.indirect2], (i - 1047) / 1024) as int < |s|
      && Id(t, s, Data(i)) == GetWord(s[GetWord(s[t.indirect2], (i - 1047) / 1024)], (i - 1047) % 1024)
  {
    hide GetWord, FileOk, TreeOf;
    WalkFacts(bm, t, s, n, i);
  }

  lemma ContentsElsewhere(bm: Area, t: Root, s: seq<Block>, size: nat, b: nat, p: Block)
    requires FileOk(bm, t, s, DataBlocks(size)) && b < bm.start && b < |s|
    ensures Contents(t, s[b := p], size) == Contents(t, s, size)
  {
    hide FileOk, TreeOf, Id, Used, DataBlocks;
    var n := DataBlocks(size);
    FileElsewhere(bm, t, s, n, b, p);
    FileFacts(bm, t, s, n);
    forall k | 0 <= k < size
      ensures ByteAt(t, s[b := p], k) == ByteAt(t, s, k)
    {
      MappedBlock(bm, t, s, n, BlockIn(size, k));
      MappedBlock(bm, t, s[b := p], n, BlockIn(size, k));
    }
  }
}
