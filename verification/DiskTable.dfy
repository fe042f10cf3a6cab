/** Whole operations on names, on the device: the table of files that `Files` works on is
    what the inode bitmap, the inodes and the blocks of their files show, and create,
    link, unlink and remove change the device as they change the table. */
module DiskTable {
  import opened Blocks
  import opened BitmapModel
  import opened Bits
  import opened Tree
  import opened InodeCodec
  import opened Growth
  import opened Shrinkage
  import opened FileSize
  import opened FileBytes
  import opened Device
  import opened Inodes
  import opened InodeFile
  import opened Volume
  import opened DirEntries
  import opened DirScan
  import opened Files
  import opened Layout
  import opened DirOnDisk
  import opened Wrappers
  import Bitmaps

  /** The number of inodes in the inode area. */
  function InodeCount(l: Super): nat {
    BLOCK_BITS * l.inodeBitmap
  }

  /** The regions are as create lays them out, and on the device. */
  ghost predicate OnDevice(l: Super, s: seq<Block>) {
    && 0 < l.inodeBitmap && l.inodeArea == 1024 * l.inodeBitmap && l.DataBitmapStart() < U32
    && Laid(l.DataIds(), s) && l.InodeIds().Fits(s)
  }

  /** Where the inode of an id is. */
  function FileAt(l: Super, id: nat): Inode {
    Inode(Position(l.AreaStart() + id / INODES_IN_BLOCK, id % INODES_IN_BLOCK))
  }

  /** It is where the code looks for it, apart from every other, and in the inode area. */
  lemma FilePlace(l: Super, id: Word, other: Word)
    requires 0 < l.inodeBitmap && l.inodeArea == 1024 * l.inodeBitmap && l.DataBitmapStart() < U32 && id < InodeCount(l)
    ensures var p, pos := FileAt(l, id).pos, GetDiskInodePos(l.AreaStart(), id);
      && p.block == pos.block && p.slot * INODE_SIZE == pos.offset && p.slot < INODES_IN_BLOCK
      && l.AreaStart() <= p.block < l.DataBitmapStart()
    ensures FileAt(l, id) == FileAt(l, other) <==> id == other
  {}

  ghost predicate Shows(l: Super, s: seq<Block>, id: nat, rec: FileRec) {
    var q := FileAt(l, id);
    && q.Stored(l.DataIds(), s)
    && q.Rec(l.DataIds(), s).kind == (if rec.isDir then DIRECTORY else FILE) && q.Rec(l.DataIds(), s).links == rec.links
    && q.Bytes(l.DataIds(), s) == rec.bytes
  }

  /** The inodes in use are those of the files of m: each file is stored, in blocks of
      its own. */
  ghost predicate Table(l: Super, s: seq<Block>, m: map<int, FileRec>, used: set<int>) {
    && OnDevice(l, s) && used == Used(l.InodeIds(), s) && m.Keys <= used
    && (forall id | id in m :: 0 <= id < InodeCount(l) && Shows(l, s, id, m[id]))
    && forall a, b | a in m && b in m && a != b ::
         0 <= a && 0 <= b && Disjoint(l.DataIds(), s, FileAt(l, a), FileAt(l, b))
  }

  /** The records of some inodes. */
  ghost function Live(files: map<int, FileRec>, live: set<int>): map<int, FileRec> {
    map id | id in files && id in live :: files[id]
  }

  /** The device holds the table. Of the inodes in use `live` are files; the others were
      taken by a create that failed. */
  ghost predicate Holds(l: Super, s: seq<Block>, files: map<int, FileRec>, used: set<int>, live: set<int>) {
    live <= used && Table(l, s, Live(files, live), used)
  }

  /** What the device holds of a file: its inode is in slot id % 32 of block id / 32 of the
      inode area, its type and link count are there, and its bytes are in blocks of its
      own; and the ids in use are those of the inode bitmap. */
  lemma HoldsMeans(l: Super, s: seq<Block>, files: map<int, FileRec>, used: set<int>, live: set<int>, id: nat)
    requires Holds(l, s, files, used, live) && id in files && id in live
    ensures id in used && id < 32768 * l.inodeBitmap && 1 + l.inodeBitmap + id / 32 < |s|
    ensures var r := GetInode(s[1 + l.inodeBitmap + id / 32], id % 32);
      && r.kind == (if files[id].isDir then 1 else 0) && r.links == files[id].links
      && Contents(r.root, s, r.size) == files[id].bytes
    ensures l.InodeIds().Fits(s) && used == Used(l.InodeIds(), s)
    ensures l.DataIds().Fits(s) && FileAt(l, id).Stored(l.DataIds(), s)
    ensures forall a | a in files && a in live && a != id ::
      && 0 <= a && FileAt(l, a).pos != FileAt(l, id).pos && FileAt(l, a).Placed(l.DataIds(), s)
      && FileAt(l, a).Map(l.DataIds(), s).Values !! FileAt(l, id).Map(l.DataIds(), s).Values
  {
    hide Used, FileOk, GetInode, TreeOf, Contents, DataBlocks;
    var m := Live(files, live);
    TableOnDevice(l, s, m, used);
    forall a | a in files && a in live && a != id
      ensures 0 <= a && FileAt(l, a).pos != FileAt(l, id).pos && FileAt(l, a).Placed(l.DataIds(), s)
      ensures FileAt(l, a).Map(l.DataIds(), s).Values !! FileAt(l, id).Map(l.DataIds(), s).Values
    {
      assert a in m && id in m;
      assert Disjoint(l.DataIds(), s, FileAt(l, a), FileAt(l, id));
    }
  }

  lemma TableFacts(l: Super, s: seq<Block>, m: map<int, FileRec>, used: set<int>, id: Word)
    requires Table(l, s, m, used)
    ensures OnDevice(l, s) && l.DataIds().Fits(s) && l.InodeIds().Fits(s) && used == Used(l.InodeIds(), s)
    ensures id in m ==> Shows(l, s, id, m[id]) && id < InodeCount(l) && id in used
    ensures id in m ==> FileAt(l, id).Stored(l.DataIds(), s)
  {
    hide Used, FileOk, GetInode, TreeOf, Contents, DataBlocks, Inode.Rec, Inode.Bytes;
  }

  /** Below the data bitmap nothing but one block may change, and the super block. */
  ghost predicate Below(at: set<int>, block: int) {
    forall b | b in at :: b == block || b <= 0
  }

  /** What a change of one file, with blocks own0 before and own1 after it, leaves of
      another file of the table. */
  lemma FileStays(l: Super, s0: seq<Block>, s: seq<Block>, q: nat, rec: FileRec, own0: set<int>, own1: set<int>,
          at: set<int>, block: int)
    requires OnDevice(l, s0) && q < InodeCount(l) && Shows(l, s0, q, rec)
    requires Spares(l.DataIds(), own0, own1, s0, s, at) && Below(at, block)
    requires FileAt(l, q).Map(l.DataIds(), s0).Values !! own0
    requires FileAt(l, q).pos.block == block ==>
      FileAt(l, q).Placed(l.DataIds(), s) && FileAt(l, q).Rec(l.DataIds(), s) == FileAt(l, q).Rec(l.DataIds(), s0)
    ensures Shows(l, s, q, rec) && FileKept(l.DataIds(), FileAt(l, q), s0, s)
    ensures FileAt(l, q).Map(l.DataIds(), s).Values !! own1
  {
    hide Used, FileOk, GetInode, TreeOf, Contents, DataBlocks;
    FilePlace(l, q, q);
    var f := FileAt(l, q);
    var r := f.Rec(l.DataIds(), s0);
    FileSpared(l.DataIds(), r.root, s0, s, r.size, own0, own1, at);
  }

  /** The blocks of all files of the table are none of these. */
  ghost predicate FreeOf(l: Super, s: seq<Block>, m: map<int, FileRec>, own: set<int>) {
    forall q | q in m && 0 <= q && FileAt(l, q).Placed(l.DataIds(), s) :: FileAt(l, q).Map(l.DataIds(), s).Values !! own
  }

  /** The inodes of the table that are in this block read as they did. */
  ghost predicate BlockKept(l: Super, s0: seq<Block>, s: seq<Block>, m: map<int, FileRec>, block: int) {
    forall q | q in m && 0 <= q && FileAt(l, q).pos.block == block && FileAt(l, q).Placed(l.DataIds(), s0) ::
      FileAt(l, q).Placed(l.DataIds(), s) && FileAt(l, q).Rec(l.DataIds(), s) == FileAt(l, q).Rec(l.DataIds(), s0)
  }

  /** What a change of blocks of no file of the table leaves of all of them. */
  lemma Others(l: Super, s0: seq<Block>, s: seq<Block>, m: map<int, FileRec>, used: set<int>, own0: set<int>,
          own1: set<int>, at: set<int>, block: int)
    requires Table(l, s0, m, used) && FreeOf(l, s0, m, own0) && BlockKept(l, s0, s, m, block)
    requires Spares(l.DataIds(), own0, own1, s0, s, at) && Below(at, block) && (block > 0 ==> block >= l.AreaStart())
    ensures Table(l, s, m, used) && FreeOf(l, s, m, own1)
    ensures forall q | q in m :: 0 <= q && FileKept(l.DataIds(), FileAt(l, q), s0, s)
  {
    hide Used, Shows, FileKept, Disjoint, Inode.Placed, Inode.Map, Inode.Rec;
    InodeIdsKept(l, s0, s, own0, own1, at, block);
    forall q | q in m
      ensures 0 <= q && FileKept(l.DataIds(), FileAt(l, q), s0, s) && Shows(l, s, q, m[q]) && FileFreeOf(l, s, q, own1)
    {
      ShowsStored(l, s0, q, m[q]);
      FileStays(l, s0, s, q, m[q], own0, own1, at, block);
      ShowsStored(l, s, q, m[q]);
    }
    forall a, b | a in m && b in m && a != b
      ensures Disjoint(l.DataIds(), s, FileAt(l, a), FileAt(l, b))
    {
      ShowsStored(l, s, a, m[a]);
      ShowsStored(l, s, b, m[b]);
      BothUntouched(l.DataIds(), FileAt(l, a), FileAt(l, b), s0, s);
    }
    assert forall q | q in m :: FileFreeOf(l, s, q, own1);
  }

  ghost predicate FileFreeOf(l: Super, s: seq<Block>, q: nat, own: set<int>) {
    FileAt(l, q).Placed(l.DataIds(), s) ==> FileAt(l, q).Map(l.DataIds(), s).Values !! own
  }

  lemma ShowsStored(l: Super, s: seq<Block>, q: nat, rec: FileRec)
    requires Shows(l, s, q, rec)
    ensures FileAt(l, q).Stored(l.DataIds(), s) && FileAt(l, q).Placed(l.DataIds(), s)
  {}

  lemma InodeIdsKept(l: Super, s0: seq<Block>, s: seq<Block>, own0: set<int>, own1: set<int>, at: set<int>, block: int)
    requires OnDevice(l, s0) && l.InodeIds().Fits(s0) && Spares(l.DataIds(), own0, own1, s0, s, at) && Below(at, block)
    requires block > 0 ==> block >= l.AreaStart()
    ensures OnDevice(l, s) && l.InodeIds().Fits(s) && Used(l.InodeIds(), s) == Used(l.InodeIds(), s0)
  {
    hide Used;
    SameBitmap(l.InodeIds(), s0, s);
  }

  /** A table without one of its files. */
  lemma Fewer(l: Super, s: seq<Block>, m: map<int, FileRec>, used: set<int>, p: Word)
    requires Table(l, s, m, used) && p in m
    ensures Table(l, s, m - {p as int}, used) && FileAt(l, p).Placed(l.DataIds(), s)
    ensures FreeOf(l, s, m - {p as int}, FileAt(l, p).Map(l.DataIds(), s).Values)
  {
    hide Used, FileOk, GetInode, TreeOf, Contents, DataBlocks, Inode.Rec, Inode.Bytes;
    forall q | q in m && q != p
      ensures 0 <= q && Disjoint(l.DataIds(), s, FileAt(l, p), FileAt(l, q))
    {}
  }

  /** A table with one more file. */
  lemma OneMore(l: Super, s: seq<Block>, m: map<int, FileRec>, used: set<int>, p: Word, rec: FileRec)
    requires Table(l, s, m, used) && p !in m && p as int in used && p < InodeCount(l) && Shows(l, s, p, rec)
    requires FileAt(l, p).Placed(l.DataIds(), s) && FreeOf(l, s, m, FileAt(l, p).Map(l.DataIds(), s).Values)
    ensures Table(l, s, m[p as int := rec], used)
  {
    hide Used, FileOk, GetInode, TreeOf, Contents, DataBlocks, Inode.Rec, Inode.Bytes;
    var m' := m[p as int := rec];
    forall a, b | a in m' && b in m' && a != b
      ensures 0 <= a && 0 <= b && Disjoint(l.DataIds(), s, FileAt(l, a), FileAt(l, b))
    {
      FilePlace(l, a, b);
    }
  }

  /** One file of a table has changed. */
  lemma FileChanged(l: Super, s0: seq<Block>, s: seq<Block>, m: map<int, FileRec>, used: set<int>, p: Word,
          rec: FileRec, at: set<int>)
    requires Table(l, s0, m, used) && p in m && Shows(l, s, p, rec)
    requires var f, bm := FileAt(l, p), l.DataIds();
      && f.Placed(bm, s0) && f.Placed(bm, s) && f.OthersKept(bm, s0, s) && Below(at, f.pos.block)
      && Spares(bm, f.Map(bm, s0).Values, f.Map(bm, s).Values, s0, s, at)
    ensures Table(l, s, m[p as int := rec], used)
    ensures forall q | q in m && q != p :: 0 <= q && FileKept(l.DataIds(), FileAt(l, q), s0, s)
  {
    hide Table, Used, Shows, Inode.Map, Inode.Rec, Spares, FileKept, FreeOf, BlockKept, Below, Inode.OthersKept;
    var f, bm := FileAt(l, p), l.DataIds();
    var others := m - {p as int};
    Fewer(l, s0, m, used, p);
    TableFacts(l, s0, m, used, p);
    FilePlace(l, p, p);
    SparesSize(bm, f.Map(bm, s0).Values, f.Map(bm, s).Values, s0, s, at);
    OthersRead(l, s0, s, others, used, p);
    Others(l, s0, s, others, used, f.Map(bm, s0).Values, f.Map(bm, s).Values, at, f.pos.block);
    OneMore(l, s, others, used, p, rec);
    assert others[p as int := rec] == m[p as int := rec];
  }

  lemma OneFile(l: Super, s0: seq<Block>, s: seq<Block>, m: map<int, FileRec>, used: set<int>, p: Word, rec: FileRec,
          stray: int)
    requires Table(l, s0, m, used) && p in m && stray <= 0 && Rewritten(l.DataIds(), FileAt(l, p), s0, s, stray)
    requires Shows(l, s, p, rec)
    ensures Table(l, s, m[p as int := rec], used)
    ensures forall q | q in m && q != p :: 0 <= q && FileKept(l.DataIds(), FileAt(l, q), s0, s)
  {
    hide Table, Used, FileOk, TreeOf, GetInode, Contents, DataBlocks, Shows, Spares, FileKept, Inode.OthersKept;
    BlockOfFile(l, s0, m, used, p);
    FileChanged(l, s0, s, m, used, p, rec, {stray, FileAt(l, p).pos.block as int});
  }

  lemma BlockOfFile(l: Super, s: seq<Block>, m: map<int, FileRec>, used: set<int>, p: Word)
    requires Table(l, s, m, used) && p in m
    ensures FileAt(l, p).pos.block > 0
  {
    hide Used, Shows, Disjoint;
    FilePlace(l, p, p);
  }

  /** The other inodes of the block are those of other files. */
  lemma OthersRead(l: Super, s0: seq<Block>, s: seq<Block>, m: map<int, FileRec>, used: set<int>, p: Word)
    requires Table(l, s0, m, used) && p !in m && p < InodeCount(l)
    requires FileAt(l, p).Placed(l.DataIds(), s0) && FileAt(l, p).Placed(l.DataIds(), s)
    requires FileAt(l, p).OthersKept(l.DataIds(), s0, s) && |s| == |s0|
    ensures BlockKept(l, s0, s, m, FileAt(l, p).pos.block)
  {
    hide Used, FileOk, GetInode, TreeOf, Contents, DataBlocks, Inode.Bytes;
    forall q | q in m && 0 <= q
      ensures q < InodeCount(l) && FileAt(l, q) != FileAt(l, p)
    {
      FilePlace(l, q, p);
    }
  }

  /** update_link_cnt, and what unlink does to the count. */
  method CountLink(l: Super, id: Word, up: bool, dev: BlockDevice, ghost m: map<int, FileRec>, ghost used: set<int>)
    requires dev.Valid() && Table(l, dev.View(), m, used) && id in m
    modifies dev, dev.disk, dev.cache
    ensures dev.Valid() && Table(l, dev.View(), m[id as int := Counted(m[id], up)], used)
    ensures forall q | q in m && q != id :: 0 <= q && FileKept(l.DataIds(), FileAt(l, q), old(dev.View()), dev.View())
    ensures l.DataIds().Fits(old(dev.View())) && l.DataIds().Fits(dev.View())
    ensures Used(l.DataIds(), dev.View()) == Used(l.DataIds(), old(dev.View()))
  {
    hide BlockDevice.Valid, Table, Used, FileOk, GetInode, PutInode, TreeOf, Contents, DataBlocks, Spares, FileKept,
      OnDevice;
    ghost var s := dev.View();
    var q := FileAt(l, id);
    TableFacts(l, s, m, used, id);
    var d := q.ReadInode(dev, l.DataIds());
    ghost var own := d.Blocks(s).Values;
    d.links := if up then Up(d.links) else Down(d.links);
    q.StoreFile(l.DataIds(), s, d.Rec());
    FileFacts(l.DataIds(), d.Ptrs(), s, DataBlocks(d.size));
    d.WriteInode(q.pos, dev);
    PatchSpares(l.DataIds(), own, s, q.pos.block, dev.View()[q.pos.block]);
    CountChanged(l, s, dev.View(), m, used, id, up);
  }

  ghost function Counted(r: FileRec, up: bool): FileRec {
    r.(links := if up then Up(r.links) else Down(r.links))
  }

  lemma CountChanged(l: Super, s0: seq<Block>, s: seq<Block>, m: map<int, FileRec>, used: set<int>, id: Word, up: bool)
    requires Table(l, s0, m, used) && id in m
    requires var q, bm := FileAt(l, id), l.DataIds();
      && q.Stored(bm, s0) && q.Stored(bm, s) && q.OthersKept(bm, s0, s) && q.Map(bm, s) == q.Map(bm, s0)
      && q.Bytes(bm, s) == q.Bytes(bm, s0)
      && q.Rec(bm, s) == q.Rec(bm, s0).(links := if up then Up(q.Rec(bm, s0).links) else Down(q.Rec(bm, s0).links))
      && Spares(bm, q.Map(bm, s0).Values, q.Map(bm, s).Values, s0, s, {q.pos.block as int})
    ensures Table(l, s, m[id as int := Counted(m[id], up)], used)
    ensures forall q | q in m && q != id :: 0 <= q && FileKept(l.DataIds(), FileAt(l, q), s0, s)
  {
    hide Table, Used, FileOk, GetInode, TreeOf, Contents, DataBlocks, Spares, FileKept;
    TableFacts(l, s0, m, used, id);
    FileChanged(l, s0, s, m, used, id, Counted(m[id], up), {FileAt(l, id).pos.block as int});
  }

  /** The record of a directory after one of its entries was taken out. */
  ghost function WithoutEntry(r: FileRec, i: nat, j: nat): FileRec
    requires (i * SLOTS + j + 1) * ENTRY <= |r.bytes|
  {
    r.(bytes := CutEntry(r.bytes, TotalBlocks(|r.bytes|), i, j))
  }

  /** The copy d is that of the inode of a file of the table. */
  ghost predicate Copy(l: Super, s: seq<Block>, d: DiskInode, m: map<int, FileRec>, id: Word)
    reads d
  {
    && id in m && Shows(l, s, id, m[id]) && d.Rec() == FileAt(l, id).Rec(l.DataIds(), s)
    && d.Rec().Ok() && l.DataIds().Fits(s)
  }

  lemma CopyFacts(l: Super, s: seq<Block>, d: DiskInode, m: map<int, FileRec>, id: Word)
    requires Copy(l, s, d, m, id)
    ensures id in m && Shows(l, s, id, m[id]) && FileAt(l, id).Placed(l.DataIds(), s)
    ensures FileAt(l, id).Stored(l.DataIds(), s) && d.Rec() == FileAt(l, id).Rec(l.DataIds(), s) && d.Rec().Ok()
    ensures d.Intact(l.DataIds(), s) && d.Bytes(s) == m[id].bytes && d.size == |m[id].bytes| && l.DataIds().Fits(s)
    ensures d.kind == DIRECTORY <==> m[id].isDir
  {
    hide FileOk, GetInode, TreeOf, DataBlocks;
  }

  /** The inode of a file of the table is read. */
  method ReadFile(l: Super, id: Word, dev: BlockDevice, ghost m: map<int, FileRec>, ghost used: set<int>)
    returns (d: DiskInode)
    requires dev.Valid() && Table(l, dev.View(), m, used) && id in m
    modifies dev, dev.disk, dev.cache
    ensures dev.Valid() && dev.View() == old(dev.View()) && fresh(d) && Copy(l, dev.View(), d, m, id)
    ensures OnDevice(l, dev.View())
  {
    hide BlockDevice.Valid, Table, FileOk, GetInode, TreeOf, Contents, DataBlocks, OnDevice;
    TableFacts(l, dev.View(), m, used, id);
    d := FileAt(l, id).ReadInode(dev, l.DataIds());
  }

  /** The entry in slot j of block i of a directory of the table is taken out. */
  method TakeEntry(l: Super, dir: Word, d: DiskInode, i: nat, j: nat, repaired: bool, dev: BlockDevice,
          ghost m: map<int, FileRec>, ghost used: set<int>)
    requires dev.Valid() && Table(l, dev.View(), m, used) && Copy(l, dev.View(), d, m, dir)
    requires |m[dir].bytes| < I31 && j < SLOTS && (i * SLOTS + j + 1) * ENTRY <= |m[dir].bytes|
    requires StrayOfCut(|m[dir].bytes|, repaired) <= 0
    modifies d, dev, dev.disk, dev.cache
    ensures dev.Valid() && Table(l, dev.View(), m[dir as int := WithoutEntry(m[dir], i, j)], used)
    ensures forall q | q in m && q != dir :: 0 <= q && FileKept(l.DataIds(), FileAt(l, q), old(dev.View()), dev.View())
  {
    hide BlockDevice.Valid, Table, FileOk, GetInode, TreeOf, Contents, DataBlocks, TotalBlocks, OnDevice, Rewritten,
      CutEntry, StrayOfCut, Inode.Stored, Copy, FileKept;
    ghost var s0, c := dev.View(), d.Bytes(dev.View());
    CopyFacts(l, s0, d, m, dir);
    TableFacts(l, s0, m, used, dir);
    BitmapLater(l, s0);
    CutFound(FileAt(l, dir), d, i, j, repaired, dev, l.DataIds());
    ghost var rec := WithoutEntry(m[dir], i, j);
    StillShows(l, s0, dev.View(), m[dir], rec, dir, StrayOfCut(|c|, repaired));
    OneFile(l, s0, dev.View(), m, used, dir, rec, StrayOfCut(|c|, repaired));
  }

  lemma BitmapLater(l: Super, s: seq<Block>)
    requires OnDevice(l, s)
    ensures 0 < l.DataIds().start
  {}

  lemma StillShows(l: Super, s0: seq<Block>, s: seq<Block>, rec0: FileRec, rec: FileRec, id: Word, stray: int)
    requires Shows(l, s0, id, rec0) && Rewritten(l.DataIds(), FileAt(l, id), s0, s, stray)
    requires FileAt(l, id).Placed(l.DataIds(), s) && FileAt(l, id).Bytes(l.DataIds(), s) == rec.bytes
    requires rec == rec0.(bytes := rec.bytes)
    ensures Shows(l, s, id, rec)
  {
    hide FileOk, GetInode, TreeOf, Contents, DataBlocks;
  }

  /** unlink */
  method Unlink(l: Super, dir: Word, name: seq<byte>, repaired: bool, dev: BlockDevice, ghost files: map<int, FileRec>,
          ghost used: set<int>, ghost live: set<int>)
    returns (r: Option<Word>, ghost files': map<int, FileRec>)
    requires dev.Valid() && Holds(l, dev.View(), files, used, live) && dir in files && dir as int in live
    requires IsName(name)
    requires files[dir].isDir ==> DirBytes(files[dir].bytes)
    requires files[dir].isDir && name in Names(files[dir]) ==>
      Names(files[dir])[name] in files && Names(files[dir])[name] as int in live
    requires StrayOfCut(|files[dir].bytes|, repaired) <= 0
    modifies dev, dev.disk, dev.cache
    ensures dev.Valid() && Holds(l, dev.View(), files', used, live) && UnlinkEffect(files, files', dir, name, r)
  {
    hide BlockDevice.Valid, Table, FileOk, GetInode, TreeOf, Contents, DataBlocks, TotalBlocks, Bindings, Entries,
      Unique, Short, DirBytes, OnDevice, CutEntry, StrayOfCut, Searches, UnlinkEffect, Unpack, Copy, Counted,
      WithoutEntry, Shows, DiskInode.Intact, DiskInode.Bytes;
    ghost var m := Live(files, live);
    var d := ReadFile(l, dir, dev, m, used);
    CopyFacts(l, dev.View(), d, m, dir);
    r, files' := None, files;
    NothingUnlinked(files, dir, name);
    if d.kind != DIRECTORY { return; }
    var hit, _ := ScanOnDisk(d, name, dev, l.DataIds());
    if !hit.Hit? { return; }
    EntryRange(files[dir].bytes, hit.i * SLOTS + hit.j);
    TakeEntry(l, dir, d, hit.i, hit.j, repaired, dev, m, used);
    ghost var rec := WithoutEntry(files[dir], hit.i, hit.j);
    CountLink(l, hit.entry.inode, false, dev, m[dir as int := rec], used);
    UnlinkDone(files, live, dir, name, hit.i, hit.j, hit.entry);
    ghost var f1 := files[dir as int := rec];
    r, files' := Some(hit.entry.inode), f1[hit.entry.inode as int := Counted(f1[hit.entry.inode], false)];
  }

  lemma NothingUnlinked(files: map<int, FileRec>, dir: int, name: seq<byte>)
    requires dir in files
    ensures (files[dir].isDir ==> name !in Names(files[dir])) ==> UnlinkEffect(files, files, dir, name, None)
  {}

  lemma UnlinkDone(files: map<int, FileRec>, live: set<int>, dir: int, name: seq<byte>, i: nat, j: nat, e: Entry)
    requires dir in files && files[dir].isDir && DirBytes(files[dir].bytes) && name in Names(files[dir]) && dir in live
    requires j < SLOTS && i < DataBlocks(|files[dir].bytes|) && i * SLOTS + j < |Entries(files[dir].bytes)|
    requires Entries(files[dir].bytes)[i * SLOTS + j] == e && e.name == name && Names(files[dir])[name] == e.inode
    requires e.inode in files && e.inode as int in live && (i * SLOTS + j + 1) * ENTRY <= |files[dir].bytes|
    ensures var f1 := files[dir := WithoutEntry(files[dir], i, j)]; var rec := Counted(f1[e.inode], false);
      && UnlinkEffect(files, f1[e.inode as int := rec], dir, name, Some(e.inode))
      && Live(f1[e.inode as int := rec], live) ==
         Live(files, live)[dir := WithoutEntry(files[dir], i, j)][e.inode as int := rec]
  {
    hide Bindings, Entries, Unique, Short, CutEntry, TotalBlocks, DataBlocks;
    CutEntryIs(files[dir].bytes, i, j);
    CutLength(files[dir].bytes, TotalBlocks(|files[dir].bytes|), i, j);
  }

  lemma CutLength(c: seq<byte>, tot: nat, i: nat, j: nat)
    requires (i * SLOTS + j + 1) * ENTRY <= |c|
    ensures |CutEntry(c, tot, i, j)| + ENTRY == |c|
  {}

  /** There are ids for n more bytes of a file of a given size. */
  ghost predicate RoomFor(l: Super, s: seq<Block>, size: nat, n: nat) {
    l.DataIds().Fits(s) && GrowthFits(l.DataIds(), s, size, size + n)
  }

  /** Room for an entry, and then for the block of a new directory. */
  lemma RoomIs(l: Super, s: seq<Block>, size: nat)
    requires l.DataIds().Fits(s) && size % 256 == 0
    ensures RoomFor(l, s, size, ENTRY) <==> size % 4096 != 0 || Lacking(size) <= FreeIds(l, s)
    ensures RoomForBoth(l, s, size) <==> Lacking(size) + 1 <= FreeIds(l, s)
    ensures Lacking(size) == if size % 4096 != 0 then 0 else |Nodes(size / 4096 + 1)| - |Nodes(size / 4096)|
    ensures FreeIds(l, s) == 32768 * l.dataBitmap - |Used(l.DataIds(), s)|
  {
    hide Used, Nodes, GrowthFits, NodeCount, DataBlocks;
    GrowthFitsIs(l.DataIds(), s, size, size + ENTRY);
    NodesCount(DataBlocks(size));
    NodesCount(DataBlocks(size + ENTRY));
    EntryBlocks(size);
  }

  lemma EntryBlocks(size: nat)
    requires size % 256 == 0
    ensures DataBlocks(size) == (size + 4095) / 4096 && DataBlocks(size + ENTRY) == (size + ENTRY + 4095) / 4096
    ensures DataBlocks(size + ENTRY) == DataBlocks(size) + if size % 4096 == 0 then 1 else 0
    ensures size % 4096 == 0 ==> DataBlocks(size) == size / 4096
  {
    var q, r := size / 4096, size % 4096;
    assert size == 4096 * q + r && (r == 0 || 256 <= r <= 4096 - 256);
    assert DataBlocks(size) == if r == 0 then q else q + 1;
    assert DataBlocks(size + ENTRY) == q + 1;
  }

  /** The blocks that a directory lacks for one more entry. */
  ghost function Lacking(size: nat): int {
    NodeCount(DataBlocks(size + ENTRY)) - NodeCount(DataBlocks(size))
  }

  ghost function FreeIds(l: Super, s: seq<Block>): int
    requires l.DataIds().Fits(s)
  {
    l.DataIds().num * BLOCK_BITS - |Used(l.DataIds(), s)|
  }

  lemma RoomSame(l: Super, s0: seq<Block>, s: seq<Block>, size: nat, n: nat)
    requires l.DataIds().Fits(s0) && l.DataIds().Fits(s) && Used(l.DataIds(), s) == Used(l.DataIds(), s0)
    ensures RoomFor(l, s, size, n) <==> RoomFor(l, s0, size, n)
  {}

  lemma CopyKept(l: Super, s0: seq<Block>, s: seq<Block>, d: DiskInode, m: map<int, FileRec>, m': map<int, FileRec>,
          used: set<int>, id: Word)
    requires Copy(l, s0, d, m, id) && Table(l, s, m', used) && id in m' && m'[id] == m[id]
    requires FileKept(l.DataIds(), FileAt(l, id), s0, s)
    ensures Copy(l, s, d, m', id)
  {
    hide Used, FileOk, GetInode, TreeOf, Contents, DataBlocks, Disjoint;
  }

  /** An entry of a directory of the table is overwritten. */
  method ChangeEntry(l: Super, dir: Word, d: DiskInode, k: nat, e: seq<byte>, dev: BlockDevice, ghost m: map<int,
          FileRec>, ghost used: set<int>)
    requires dev.Valid() && Table(l, dev.View(), m, used) && Copy(l, dev.View(), d, m, dir)
    requires |m[dir].bytes| < I31 && |e| == ENTRY && (k + 1) * ENTRY <= |m[dir].bytes|
    modifies dev, dev.disk, dev.cache
    ensures dev.Valid() && Table(l, dev.View(), m[dir as int := m[dir].(bytes := SetEntry(m[dir].bytes, k, e))], used)
  {
    hide BlockDevice.Valid, Table, FileOk, GetInode, TreeOf, Contents, DataBlocks, OnDevice, Rewritten, SetEntry,
      Inode.Stored, Copy;
    ghost var s0 := dev.View();
    CopyFacts(l, s0, d, m, dir);
    TableFacts(l, s0, m, used, dir);
    ghost var rec := m[dir].(bytes := SetEntry(m[dir].bytes, k, e));
    Overwrite(FileAt(l, dir), d, k, e, dev, l.DataIds());
    StillShows(l, s0, dev.View(), m[dir], rec, dir, -1);
    OneFile(l, s0, dev.View(), m, used, dir, rec, -1);
  }

  /** An entry is added to a directory of the table. */
  method AddEntry(l: Super, dir: Word, d: DiskInode, e: seq<byte>, dev: BlockDevice, ghost m: map<int, FileRec>,
          ghost used: set<int>)
    returns (ok: bool)
    requires dev.Valid() && Table(l, dev.View(), m, used) && Copy(l, dev.View(), d, m, dir)
    requires |e| == ENTRY && |m[dir].bytes| + ENTRY < I31
    modifies d, dev, dev.disk, dev.cache
    ensures dev.Valid() && (ok <==> RoomFor(l, old(dev.View()), |m[dir].bytes|, ENTRY))
    ensures Table(l, dev.View(), if ok then m[dir as int := m[dir].(bytes := m[dir].bytes + e)] else m, used)
  {
    hide BlockDevice.Valid, Table, FileOk, GetInode, TreeOf, Contents, DataBlocks, OnDevice, Rewritten, Inode.Stored,
      Copy, GrowthFits, Spares, Shows;
    CopyFacts(l, dev.View(), d, m, dir);
    ghost var s0, rec0 := dev.View(), m[dir];
    var q := FileAt(l, dir);
    TableFacts(l, s0, m, used, dir);
    ghost var own0 := d.Blocks(s0).Values;
    ok := AddBytes(d, e, dev, l.DataIds());
    ghost var s1, rec := dev.View(), rec0.(bytes := rec0.bytes + e);
    ghost var own := d.Blocks(s1).Values;
    if !ok {
      KeptAsIs(l.DataIds(), q, s0, s1, own0);
      StillShows(l, s0, s1, rec0, rec0, dir, -1);
      OneFile(l, s0, s1, m, used, dir, rec0, -1);
      assert m[dir as int := rec0] == m;
      return;
    }
    q.PlacedStill(l.DataIds(), s0, s1, own0, own);
    WriteBack(q, d, s0, own0, dev, l.DataIds());
    StillShows(l, s0, dev.View(), rec0, rec, dir, -1);
    OneFile(l, s0, dev.View(), m, used, dir, rec, -1);
  }

  /** link. The inode linked is not the directory itself. */
  method Link(l: Super, dir: Word, name: seq<byte>, id: Word, replace: bool, dev: BlockDevice, ghost files: map<int,
          FileRec>, ghost used: set<int>, ghost live: set<int>)
    returns (ok: bool, ghost files': map<int, FileRec>, ghost atEnd: bool)
    requires dev.Valid() && Holds(l, dev.View(), files, used, live) && dir in files && dir as int in live
    requires IsName(name)
    requires files[dir].isDir ==> DirBytes(files[dir].bytes) && |files[dir].bytes| + ENTRY < I31
    requires id in files && id as int in live && id != dir
    modifies dev, dev.disk, dev.cache
    ensures dev.Valid() && Holds(l, dev.View(), files', used, live)
    ensures LinkEffect(files, files', dir, name, id, replace, RoomFor(l, old(dev.View()), |files[dir].bytes|, ENTRY),
      atEnd, ok)
    ensures ok ==>
      var kept, before := if |name| <= 251 then name else name[..251], Names(files[dir]);
      dir in files' && Names(files'[dir]) == if kept in before && name !in before then before else before[kept := id]
  {
    hide BlockDevice.Valid, Table, FileOk, GetInode, TreeOf, Contents, DataBlocks, TotalBlocks, Bindings, Entries,
      Unique, Short, DirBytes, OnDevice, SetEntry, Searches, LinkEffect, Unpack, Copy, Counted, Shows, DiskInode.Intact,
      DiskInode.Bytes, Pack, GrowthFits, FileKept;
    ghost var s0, m := dev.View(), Live(files, live);
    ghost var room := RoomFor(l, s0, |files[dir].bytes|, ENTRY);
    var d := ReadFile(l, dir, dev, m, used);
    CopyFacts(l, s0, d, m, dir);
    ok, files', atEnd := false, files, false;
    NotLinked(files, dir, name, id, replace, room, atEnd);
    if d.kind != DIRECTORY { return; }
    var hit;
    hit, atEnd := ScanOnDisk(d, name, dev, l.DataIds());
    NotLinked(files, dir, name, id, replace, room, atEnd);
    if hit.Broken? || (hit.Hit? && !replace) { return; }
    CountLink(l, id, true, dev, m, used);
    ghost var m1 := m[id as int := Counted(m[id], true)];
    CopyKept(l, s0, dev.View(), d, m, m1, used, dir);
    RoomSame(l, s0, dev.View(), |files[dir].bytes|, ENTRY);
    if hit.Hit? {
      EntryRange(files[dir].bytes, hit.i * SLOTS + hit.j);
      ChangeEntry(l, dir, d, hit.i * SLOTS + hit.j, Pack(hit.entry.name, id), dev, m1, used);
      files' := EntryReplaced(files, dir, hit.i * SLOTS + hit.j, name, id);
      LinkReplaced(files, live, dir, name, id, hit.i * SLOTS + hit.j, room, atEnd);
      ok := true;
      LinkMeans(files, files', dir, name, id, replace, room, atEnd, ok);
    } else {
      ok := AddEntry(l, dir, d, Pack(name, id), dev, m1, used);
      files' := EntryAppended(files, dir, name, id, ok);
      LinkAppended(files, live, dir, name, id, replace, atEnd, ok);
      LinkMeans(files, files', dir, name, id, replace, ok, atEnd, ok);
    }
  }

  /** The table after a name was linked in either way. */
  ghost function EntryReplaced(files: map<int, FileRec>, dir: int, k: nat, name: seq<byte>, id: Word): map<int, FileRec>
    requires dir in files && id in files && (k + 1) * ENTRY <= |files[dir].bytes|
  {
    var rec := files[dir].(bytes := SetEntry(files[dir].bytes, k, Pack(name, id)));
    files[id as int := Counted(files[id], true)][dir := rec]
  }

  ghost function EntryAppended(files: map<int, FileRec>, dir: int, name: seq<byte>, id: Word,
          ok: bool): map<int, FileRec>
    requires dir in files && id in files
  {
    var f1 := files[id as int := Counted(files[id], true)];
    if ok then f1[dir := files[dir].(bytes := files[dir].bytes + Pack(name, id))] else f1
  }

  lemma LinkReplaced(files: map<int, FileRec>, live: set<int>, dir: int, name: seq<byte>, id: Word, k: nat, room: bool,
          atEnd: bool)
    requires dir in files && id in files && dir in live && id as int in live && id != dir
    requires files[dir].isDir && DirBytes(files[dir].bytes) && IsName(name) && name in Names(files[dir])
    requires k < |Entries(files[dir].bytes)| && Entries(files[dir].bytes)[k].name == name
    requires (k + 1) * ENTRY <= |files[dir].bytes|
    ensures var f' := EntryReplaced(files, dir, k, name, id);
      && LinkEffect(files, f', dir, name, id, true, room, atEnd, true)
      && Live(f', live) == Live(files, live)[id as int := Counted(files[id], true)][dir := f'[dir]]
  {
    hide Bindings, Entries, Unique, Short, SetEntry, Pack;
    ShortName(files[dir].bytes, name);
    SetEntryIs(files[dir].bytes, k, name, id);
  }

  lemma LinkAppended(files: map<int, FileRec>, live: set<int>, dir: int, name: seq<byte>, id: Word, replace: bool,
          atEnd: bool, ok: bool)
    requires dir in files && id in files && dir in live && id as int in live && id != dir
    requires files[dir].isDir && DirBytes(files[dir].bytes) && |files[dir].bytes| + ENTRY < I31 && IsName(name)
    requires name !in Names(files[dir]) && Searches(|files[dir].bytes|, atEnd)
    ensures var f' := EntryAppended(files, dir, name, id, ok);
      && LinkEffect(files, f', dir, name, id, replace, ok, atEnd, ok)
      && Live(f', live) == if ok then Live(files, live)[id as int := Counted(files[id], true)][dir := f'[dir]]
                           else Live(files, live)[id as int := Counted(files[id], true)]
  {
    hide Bindings, Entries, Unique, Short, Pack, Searches;
    AppendIs(files[dir].bytes, name, id);
  }

  lemma NotLinked(files: map<int, FileRec>, dir: int, name: seq<byte>, id: Word, replace: bool, room: bool, atEnd: bool)
    requires dir in files && id in files
    ensures !Linkable(files[dir], name, replace, true, atEnd) && !Linkable(files[dir], name, false, true, atEnd) ==>
      LinkEffect(files, files, dir, name, id, replace, room, atEnd, false)
  {}

  /** A write to a block of the inode bitmap. */
  lemma FileBeside(l: Super, s: seq<Block>, b: nat, p: Block, q: nat, rec: FileRec)
    requires OnDevice(l, s) && q < InodeCount(l) && Shows(l, s, q, rec) && 0 < b < l.AreaStart()
    ensures b < |s| && Shows(l, s[b := p], q, rec) && FileKept(l.DataIds(), FileAt(l, q), s, s[b := p])
  {
    hide Used, FileOk, GetInode, TreeOf, Contents, DataBlocks;
    FilePlace(l, q, q);
    var r := FileAt(l, q).Rec(l.DataIds(), s);
    FileElsewhere(l.DataIds(), r.root, s, DataBlocks(r.size), b, p);
    ContentsElsewhere(l.DataIds(), r.root, s, r.size, b, p);
  }

  /** The table after a write to the inode bitmap. */
  lemma Beside(l: Super, s: seq<Block>, s': seq<Block>, b: nat, m: map<int, FileRec>, used: set<int>, used': set<int>)
    requires Table(l, s, m, used) && 0 < b < l.AreaStart() && b < |s| == |s'| && s' == s[b := s'[b]]
    requires l.InodeIds().Fits(s') && used' == Used(l.InodeIds(), s') && m.Keys <= used'
    ensures Table(l, s', m, used')
    ensures forall q | q in m :: 0 <= q && FileKept(l.DataIds(), FileAt(l, q), s, s')
  {
    hide Used, Shows, FileKept, Disjoint;
    forall q | q in m
      ensures 0 <= q && FileKept(l.DataIds(), FileAt(l, q), s, s') && Shows(l, s', q, m[q])
    {
      FileBeside(l, s, b, s'[b], q, m[q]);
    }
    forall a, b | a in m && b in m && a != b
      ensures Disjoint(l.DataIds(), s', FileAt(l, a), FileAt(l, b))
    {
      ShowsStored(l, s', a, m[a]);
      ShowsStored(l, s', b, m[b]);
      BothUntouched(l.DataIds(), FileAt(l, a), FileAt(l, b), s, s');
    }
  }

  /** An inode of the table is given back. */
  method FreeInode(l: Super, id: Word, dev: BlockDevice, ghost m: map<int, FileRec>, ghost used: set<int>)
    requires dev.Valid() && Table(l, dev.View(), m, used) && id in m
    modifies dev, dev.disk, dev.cache
    ensures dev.Valid() && Table(l, dev.View(), m - {id as int}, used - {id as int})
    ensures FileKept(l.DataIds(), FileAt(l, id), old(dev.View()), dev.View())
    ensures FileAt(l, id).Placed(l.DataIds(), dev.View()) && FileAt(l, id).Stored(l.DataIds(), dev.View())
    ensures FreeOf(l, dev.View(), m - {id as int}, FileAt(l, id).Map(l.DataIds(), dev.View()).Values)
  {
    hide BlockDevice.Valid, Table, Unmarked, OnDevice, Shows, Inode.Map, Inode.Placed, Inode.Stored, FreeOf, FileKept;
    ghost var s := dev.View();
    Freed(l, s, m, used, id);
    Bitmaps.Free(l.InodeIds(), id, dev);
  }

  lemma Freed(l: Super, s: seq<Block>, m: map<int, FileRec>, used: set<int>, id: Word)
    requires Table(l, s, m, used) && id in m
    ensures l.InodeIds().Fits(s) && l.InodeIds().Manages(id) && OnDevice(l, s)
    ensures var s' := Unmarked(l.InodeIds(), s, id);
      && Table(l, s', m - {id as int}, used - {id as int}) && FileKept(l.DataIds(), FileAt(l, id), s, s')
      && FileAt(l, id).Placed(l.DataIds(), s') && FileAt(l, id).Stored(l.DataIds(), s')
      && FreeOf(l, s', m - {id as int}, FileAt(l, id).Map(l.DataIds(), s').Values)
  {
    hide Table, Used, Unmarked, OnDevice, Shows, Inode.Map, FreeOf, Inode.Rec, Inode.Bytes, FileOk;
    TableFacts(l, s, m, used, id);
    InUse(l, s, id);
    UnmarkedUsed(l.InodeIds(), s, id);
    UnmarkedOne(l, s, id);
    Fewer(l, s, m, used, id);
    var s', b := Unmarked(l.InodeIds(), s, id), 1 + (id - l.InodeIds().offset) / BLOCK_BITS;
    KeysUsed(l, s, m, used);
    Beside(l, s, s', b, m - {id as int}, used, used - {id as int});
    FileBeside(l, s, b, s'[b], id, m[id]);
    ShowsStored(l, s', id, m[id]);
    FreeOfBeside(l, s, s', m - {id as int}, id);
  }

  lemma KeysUsed(l: Super, s: seq<Block>, m: map<int, FileRec>, used: set<int>)
    requires Table(l, s, m, used)
    ensures m.Keys <= used
  {}

  lemma InUse(l: Super, s: seq<Block>, id: Word)
    requires OnDevice(l, s) && l.InodeIds().Fits(s)
    ensures id in Used(l.InodeIds(), s) ==> l.InodeIds().Manages(id)
  {}

  lemma UnmarkedOne(l: Super, s: seq<Block>, id: int)
    requires OnDevice(l, s) && l.InodeIds().Fits(s) && l.InodeIds().Manages(id)
    ensures var b, s' := 1 + (id - l.InodeIds().offset) / BLOCK_BITS, Unmarked(l.InodeIds(), s, id);
      0 < b < l.AreaStart() && b < |s| && |s'| == |s| && s' == s[b := s'[b]] && l.InodeIds().Fits(s')
  {
    hide ClearSlot;
  }

  lemma FreeOfBeside(l: Super, s: seq<Block>, s': seq<Block>, m: map<int, FileRec>, id: nat)
    requires FileKept(l.DataIds(), FileAt(l, id), s, s') && FreeOf(l, s, m, FileAt(l, id).Map(l.DataIds(), s).Values)
    requires forall q | q in m :: 0 <= q && FileKept(l.DataIds(), FileAt(l, q), s, s')
    ensures FreeOf(l, s', m, FileAt(l, id).Map(l.DataIds(), s').Values)
  {
    hide GetInode, TreeOf, Contents, DataBlocks;
  }

  /** The blocks of a file that is in the table no more are given back. */
  method ReleaseBlocks(l: Super, e: DiskInode, repaired: bool, dev: BlockDevice, ghost m: map<int, FileRec>,
          ghost used: set<int>)
    requires dev.Valid() && Table(l, dev.View(), m, used) && e.Intact(l.DataIds(), dev.View())
    requires FreeOf(l, dev.View(), m, e.Blocks(dev.View()).Values)
    modifies e, dev, dev.disk, dev.cache
    ensures dev.Valid() && Table(l, dev.View(), m, used)
  {
    hide BlockDevice.Valid, Table, FileOk, TreeOf, GrownExactly, ShrunkExactly, WrittenThenFreed, DataBlocks, NodeCount,
      Failed, FreeOf, Used, FileKept, Spares, PutInode, GetInode, Overwritten, Area.Fits;
    ghost var s0, t0, n0, own := dev.View(), e.Ptrs(), DataBlocks(e.size), e.Blocks(dev.View()).Values;
    BlocksMonotone(0, e.size);
    NoBlocks();
    TableOnDevice(l, s0, m, used);
    BitmapLater(l, s0);
    ghost var w;
    var ok;
    ok, w := e.Resize(0, repaired, dev, l.DataIds(), None);
    if n0 == 0 {
      assert dev.View() == s0;
    } else {
      ShrinkSpares(l.DataIds(), t0, s0, n0, e.Ptrs(), dev.View(), 0, -1, -1);
      NothingHit(l);
      Others(l, s0, dev.View(), m, used, own, e.Blocks(dev.View()).Values, {-1, -1}, -1);
    }
  }

  lemma NoBlocks()
    ensures DataBlocks(0) == 0 && Stray(0, false) == Stray(0, true) == -1
  {}

  lemma NothingHit(l: Super)
    ensures Below({-1, -1}, -1)
    ensures forall s0, s, m :: BlockKept(l, s0, s, m, -1)
  {}

  lemma TableOnDevice(l: Super, s: seq<Block>, m: map<int, FileRec>, used: set<int>)
    requires Table(l, s, m, used)
    ensures OnDevice(l, s) && l.DataIds().Fits(s)
  {}

  /** What a copy of an inode still says when its file was kept twice. */
  lemma KeptTwice(l: Super, s0: seq<Block>, s1: seq<Block>, s2: seq<Block>, id: nat, r: InodeRec)
    requires FileAt(l, id).Placed(l.DataIds(), s0) && FileAt(l, id).Stored(l.DataIds(), s2)
    requires FileKept(l.DataIds(), FileAt(l, id), s0, s1) && FileKept(l.DataIds(), FileAt(l, id), s1, s2)
    requires r.root == FileAt(l, id).Rec(l.DataIds(), s0).root && r.size == FileAt(l, id).Rec(l.DataIds(), s0).size
    ensures FileOk(l.DataIds(), r.root, s2, DataBlocks(r.size))
    ensures TreeOf(r.root, s2, DataBlocks(r.size)) == FileAt(l, id).Map(l.DataIds(), s2)
  {
    hide FileOk, GetInode, TreeOf, Contents, DataBlocks;
  }

  /** A file goes with its last name: the entry is taken out, and inode and blocks are
      given back. e is the copy of its inode, with the count at 0. */
  method DropFile(l: Super, dir: Word, d: DiskInode, i: nat, j: nat, child: Word, e: DiskInode, repaired: bool,
          dev: BlockDevice, ghost m: map<int, FileRec>, ghost used: set<int>)
    requires dev.Valid() && Table(l, dev.View(), m, used) && Copy(l, dev.View(), d, m, dir) && child in m
    requires child != dir && d != e
    requires |m[dir].bytes| < I31 && j < SLOTS && (i * SLOTS + j + 1) * ENTRY <= |m[dir].bytes|
    requires StrayOfCut(|m[dir].bytes|, repaired) <= 0 && FileAt(l, child).Placed(l.DataIds(), dev.View())
    requires |e.stamps| == 3
    requires e.Ptrs() == FileAt(l, child).Rec(l.DataIds(), dev.View()).root
    requires e.size == FileAt(l, child).Rec(l.DataIds(), dev.View()).size
    modifies d, e, dev, dev.disk, dev.cache
    ensures dev.Valid()
    ensures Table(l, dev.View(), m[dir as int := WithoutEntry(m[dir], i, j)] - {child as int}, used - {child as int})
  {
    hide BlockDevice.Valid, Table, FileOk, GetInode, TreeOf, Contents, DataBlocks, TotalBlocks, OnDevice, CutEntry,
      StrayOfCut, Copy, WithoutEntry, Shows, FileKept, FreeOf, Inode.Stored;
    CopyFacts(l, dev.View(), d, m, dir);
    ghost var s0 := dev.View();
    ghost var m1 := m[dir as int := WithoutEntry(m[dir], i, j)];
    TakeEntry(l, dir, d, i, j, repaired, dev, m, used);
    ghost var s1 := dev.View();
    FreeInode(l, child, dev, m1, used);
    KeptTwice(l, s0, s1, dev.View(), child, e.Rec());
    ReleaseBlocks(l, e, repaired, dev, m1 - {child as int}, used - {child as int});
  }

  /** The inode of a directory is written back as it was. */
  method WriteSame(l: Super, dir: Word, d: DiskInode, dev: BlockDevice, ghost m: map<int, FileRec>,
          ghost used: set<int>)
    requires dev.Valid() && Table(l, dev.View(), m, used) && Copy(l, dev.View(), d, m, dir)
    modifies dev, dev.disk, dev.cache
    ensures dev.Valid() && Table(l, dev.View(), m, used)
  {
    hide BlockDevice.Valid, Table, FileOk, GetInode, TreeOf, Contents, DataBlocks, OnDevice, Rewritten, Copy, Spares,
      Shows;
    ghost var s0 := dev.View();
    CopyFacts(l, s0, d, m, dir);
    SparesSelf(l.DataIds(), d.Ptrs(), s0, DataBlocks(d.size));
    WriteBack(FileAt(l, dir), d, s0, d.Blocks(s0).Values, dev, l.DataIds());
    StillShows(l, s0, dev.View(), m[dir], m[dir], dir, -1);
    OneFile(l, s0, dev.View(), m, used, dir, m[dir], -1);
    assert m[dir as int := m[dir]] == m;
  }

  /** remove. The inode of the name is not the directory itself. */
  method Remove(l: Super, dir: Word, name: seq<byte>, repaired: bool, dev: BlockDevice, ghost files: map<int, FileRec>,
          ghost used: set<int>, ghost live: set<int>)
    returns (ok: bool, ghost files': map<int, FileRec>, ghost used': set<int>, ghost live': set<int>)
    requires dev.Valid() && Holds(l, dev.View(), files, used, live) && dir in files && dir as int in live
    requires IsName(name)
    requires files[dir].isDir ==> DirBytes(files[dir].bytes)
    requires files[dir].isDir && name in Names(files[dir]) ==>
      Names(files[dir])[name] != dir && Names(files[dir])[name] in files && Names(files[dir])[name] as int in live
    requires StrayOfCut(|files[dir].bytes|, repaired) <= 0
    modifies dev, dev.disk, dev.cache
    ensures dev.Valid() && Holds(l, dev.View(), files', used', live')
    ensures RemoveEffect(files, used, files', used', dir, name, ok)
  {
    hide BlockDevice.Valid, Table, FileOk, GetInode, TreeOf, Contents, DataBlocks, TotalBlocks, Bindings, Entries,
      Unique, Short, DirBytes, OnDevice, CutEntry, StrayOfCut, Searches, RemoveEffect, Unpack, Copy, WithoutEntry,
      Shows, DiskInode.Intact, DiskInode.Bytes, FileKept, FreeOf, Inode.Stored;
    ghost var m := Live(files, live);
    var d := ReadFile(l, dir, dev, m, used);
    CopyFacts(l, dev.View(), d, m, dir);
    ok, files', used', live' := false, files, used, live;
    NothingRemoved(files, used, dir, name);
    if d.kind != DIRECTORY { return; }
    var hit, _ := ScanOnDisk(d, name, dev, l.DataIds());
    if !hit.Hit? { return; }
    ok := true;
    var child := hit.entry.inode;
    EntryRange(files[dir].bytes, hit.i * SLOTS + hit.j);
    RemoveDone(files, used, live, dir, name, hit.i, hit.j, hit.entry);
    var e := ReadFile(l, child, dev, m, used);
    CopyFacts(l, dev.View(), e, m, child);
    CountOf(l, dev.View(), e, m, child);
    e.links := Down(e.links);
    if e.links == 0 {
      DropFile(l, dir, d, hit.i, hit.j, child, e, repaired, dev, m, used);
      files' := files[dir as int := WithoutEntry(files[dir], hit.i, hit.j)];
      used', live' := used - {child as int}, live - {child as int};
    } else {
      WriteSame(l, dir, d, dev, m, used);
    }
  }

  lemma CountOf(l: Super, s: seq<Block>, d: DiskInode, m: map<int, FileRec>, id: Word)
    requires Copy(l, s, d, m, id)
    ensures d.links == m[id].links
  {}

  lemma NothingRemoved(files: map<int, FileRec>, used: set<int>, dir: int, name: seq<byte>)
    requires dir in files
    ensures (files[dir].isDir ==> name !in Names(files[dir])) ==>
      RemoveEffect(files, used, files, used, dir, name, false)
  {}

  lemma RemoveDone(files: map<int, FileRec>, used: set<int>, live: set<int>, dir: int, name: seq<byte>, i: nat, j: nat,
          e: Entry)
    requires dir in files && files[dir].isDir && DirBytes(files[dir].bytes) && name in Names(files[dir]) && dir in live
    requires j < SLOTS && i < DataBlocks(|files[dir].bytes|) && i * SLOTS + j < |Entries(files[dir].bytes)|
    requires Entries(files[dir].bytes)[i * SLOTS + j] == e && e.name == name && Names(files[dir])[name] == e.inode
    requires e.inode != dir
    requires e.inode in files && e.inode as int in live && (i * SLOTS + j + 1) * ENTRY <= |files[dir].bytes|
    ensures files[e.inode].links != 1 ==> RemoveEffect(files, used, files, used, dir, name, true)
    ensures var rec, used' := WithoutEntry(files[dir], i, j), used - {e.inode as int};
      && (files[e.inode].links == 1 ==> RemoveEffect(files, used, files[dir := rec], used', dir, name, true))
      && Live(files[dir := rec], live - {e.inode as int}) == Live(files, live)[dir := rec] - {e.inode as int}
  {
    hide Bindings, Entries, Unique, Short, CutEntry, TotalBlocks, DataBlocks;
    CutEntryIs(files[dir].bytes, i, j);
  }

  /** There is a free inode number whose inode is in the inode area. */
  ghost predicate HasFreeInode(l: Super, used: set<int>) {
    exists id :: l.AreaStart() <= id < InodeCount(l) && id !in used
  }

  /** alloc_inode */
  method AllocInode(l: Super, dev: BlockDevice, ghost m: map<int, FileRec>, ghost used: set<int>) returns (id: Word)
    requires dev.Valid() && Table(l, dev.View(), m, used) && HasFreeInode(l, used)
    modifies dev, dev.disk, dev.cache
    ensures dev.Valid() && id as int !in used && id < InodeCount(l) && Table(l, dev.View(), m, used + {id as int})
    ensures l.AreaStart() <= id && forall i | l.AreaStart() <= i < id :: i in used
    ensures forall q | q in m :: 0 <= q && FileKept(l.DataIds(), FileAt(l, q), old(dev.View()), dev.View())
    ensures l.DataIds().Fits(old(dev.View())) && l.DataIds().Fits(dev.View())
    ensures Used(l.DataIds(), dev.View()) == Used(l.DataIds(), old(dev.View()))
  {
    hide BlockDevice.Valid, Table, Marked, OnDevice, FileKept, Used;
    ghost var s := dev.View();
    TableOnDevice(l, s, m, used);
    OwnIds(l, s, m, used);
    id := Bitmaps.Alloc(l.InodeIds(), dev);
    ghost var free :| l.AreaStart() <= free < InodeCount(l) && free !in used;
    InManaged(l, s, free);
    assert id <= free;
    InodeTaken(l, s, m, used, id);
  }

  lemma OwnIds(l: Super, s: seq<Block>, m: map<int, FileRec>, used: set<int>)
    requires Table(l, s, m, used)
    ensures l.InodeIds().Fits(s) && used == Used(l.InodeIds(), s) && m.Keys <= used && InodeCount(l) < U32
  {}

  lemma InManaged(l: Super, s: seq<Block>, id: int)
    requires OnDevice(l, s) && l.AreaStart() <= id < InodeCount(l)
    ensures l.InodeIds().Manages(id) && l.InodeIds().offset == l.AreaStart()
  {}

  lemma InodeTaken(l: Super, s: seq<Block>, m: map<int, FileRec>, used: set<int>, id: int)
    requires Table(l, s, m, used) && l.InodeIds().Fits(s) && l.InodeIds().Manages(id)
    ensures var s' := Marked(l.InodeIds(), s, id);
      && Table(l, s', m, used + {id})
      && (forall q | q in m :: 0 <= q && FileKept(l.DataIds(), FileAt(l, q), s, s'))
      && l.DataIds().Fits(s) && l.DataIds().Fits(s') && Used(l.DataIds(), s') == Used(l.DataIds(), s)
  {
    hide Table, Used, Marked, FileKept, SetSlot;
    TableOnDevice(l, s, m, used);
    OwnIds(l, s, m, used);
    MarkedUsed(l.InodeIds(), s, id);
    MarkedOne(l, s, id);
    var s', b := Marked(l.InodeIds(), s, id), 1 + (id - l.InodeIds().offset) / BLOCK_BITS;
    SameBitmap(l.DataIds(), s, s');
    Beside(l, s, s', b, m, used, used + {id});
  }

  lemma MarkedOne(l: Super, s: seq<Block>, id: int)
    requires OnDevice(l, s) && l.InodeIds().Fits(s) && l.InodeIds().Manages(id)
    ensures var b, s' := 1 + (id - l.InodeIds().offset) / BLOCK_BITS, Marked(l.InodeIds(), s, id);
      0 < b < l.AreaStart() && b < |s| && |s'| == |s| && s' == s[b := s'[b]] && l.InodeIds().Fits(s') &&
        l.DataIds().Fits(s')
    ensures forall i | l.DataIds().IsBitmapBlock(i) :: Marked(l.InodeIds(), s, id)[i] == s[i]
  {
    hide SetSlot;
  }

  /** A file whose inode is only a copy yet: its blocks are in order, and those of no file
      of the table. */
  ghost predicate Pending(l: Super, s: seq<Block>, m: map<int, FileRec>, r: InodeRec, c: seq<byte>) {
    && r.Ok() && FileOk(l.DataIds(), r.root, s, DataBlocks(r.size)) && Contents(r.root, s, r.size) == c
    && FreeOf(l, s, m, TreeOf(r.root, s, DataBlocks(r.size)).Values)
  }

  /** The directory grows by an entry, in the copy of its inode; the one on the device
      still describes what it was. */
  method GrowDir(l: Super, dir: Word, d: DiskInode, e: seq<byte>, dev: BlockDevice, ghost m: map<int, FileRec>,
          ghost used: set<int>)
    returns (ok: bool)
    requires dev.Valid() && Table(l, dev.View(), m, used) && Copy(l, dev.View(), d, m, dir)
    requires 0 < |e| && |m[dir].bytes| + |e| < I31
    modifies d, dev, dev.disk, dev.cache
    ensures dev.Valid() && (ok <==> RoomFor(l, old(dev.View()), |m[dir].bytes|, |e|))
    ensures Table(l, dev.View(), m, used) && Table(l, dev.View(), m - {dir as int}, used)
    ensures ok ==> d.Rec().Ok() && d.kind == old(d.kind) && d.links == m[dir].links
    ensures ok ==> Pending(l, dev.View(), m - {dir as int}, d.Rec(), m[dir].bytes + e)
    ensures l.DataIds().Fits(old(dev.View())) && l.DataIds().Fits(dev.View())
    ensures ok ==> |Used(l.DataIds(), dev.View())| == |Used(l.DataIds(), old(dev.View()))| +
                   NodeCount(DataBlocks(|m[dir].bytes| + |e|)) - NodeCount(DataBlocks(|m[dir].bytes|))
  {
    hide BlockDevice.Valid, Table, FileOk, GetInode, TreeOf, Contents, DataBlocks, NodeCount, OnDevice, Rewritten,
      Inode.Stored, Copy, GrowthFits, Spares, Shows, Used, FreeOf, FileKept;
    CopyFacts(l, dev.View(), d, m, dir);
    CountOf(l, dev.View(), d, m, dir);
    ghost var s0, rec0 := dev.View(), m[dir];
    ghost var q := FileAt(l, dir);
    Fewer(l, s0, m, used, dir);
    ghost var own0 := d.Blocks(s0).Values;
    ok := AddBytes(d, e, dev, l.DataIds());
    ghost var s1 := dev.View();
    ghost var own := if ok then d.Blocks(s1).Values else own0;
    KeptAsIs(l.DataIds(), q, s0, s1, own);
    StillShows(l, s0, s1, rec0, rec0, dir, -1);
    OneFile(l, s0, s1, m, used, dir, rec0, -1);
    assert m[dir as int := rec0] == m;
    NothingHit(l);
    Others(l, s0, s1, m - {dir as int}, used, own0, own, {}, -1);
  }

  lemma FreeOfKept(l: Super, s: seq<Block>, s': seq<Block>, m: map<int, FileRec>, own: set<int>)
    requires FreeOf(l, s, m, own) && forall q | q in m :: 0 <= q && FileKept(l.DataIds(), FileAt(l, q), s, s')
    ensures FreeOf(l, s', m, own)
  {
    hide GetInode, TreeOf, Contents, DataBlocks;
  }

  /** The first entries of a new directory, whose inode is only a copy yet; r is that of
      another one. */
  method FillNew(l: Super, e: DiskInode, dots: seq<byte>, dev: BlockDevice, ghost m: map<int, FileRec>,
          ghost w: map<int, FileRec>, ghost used: set<int>, ghost r: InodeRec, ghost c: seq<byte>)
    returns (ok: bool)
    requires dev.Valid() && Table(l, dev.View(), m, used) && Table(l, dev.View(), w, used)
    requires Pending(l, dev.View(), w, r, c)
    requires e.Rec().Ok() && e.size == 0 && e.indirect1 == 0 && e.indirect2 == 0 && 0 < |dots| < I31
    modifies e, dev, dev.disk, dev.cache
    ensures dev.Valid() && (ok <==> RoomFor(l, old(dev.View()), 0, |dots|))
    ensures Table(l, dev.View(), m, used) && Table(l, dev.View(), w, used) && Pending(l, dev.View(), w, r, c)
    ensures ok ==> e.kind == old(e.kind) && e.links == old(e.links) && Pending(l, dev.View(), w, e.Rec(), dots)
    ensures ok ==> e.Blocks(dev.View()).Values !! TreeOf(r.root, dev.View(), DataBlocks(r.size)).Values
  {
    hide BlockDevice.Valid, Table, FileOk, GetInode, TreeOf, Contents, DataBlocks, NodeCount, OnDevice, GrowthFits,
      Spares, Used, FreeOf, FileKept;
    ghost var s := dev.View();
    TableOnDevice(l, s, w, used);
    OnDeviceLaid(l, s);
    NoBlocks();
    FreshFile(l.DataIds(), e.Ptrs(), s);
    assert e.Blocks(s).Values == {};
    ok := AddBytes(e, dots, dev, l.DataIds());
    ghost var s' := dev.View();
    ghost var own := if ok then e.Blocks(s').Values else {};
    NothingHit(l);
    FreeOfNone(l, s, m);
    FreeOfNone(l, s, w);
    Others(l, s, s', m, used, {}, own, {}, -1);
    Others(l, s, s', w, used, {}, own, {}, -1);
    FileSpared(l.DataIds(), r.root, s, s', r.size, {}, own, {});
    FreeOfKept(l, s, s', w, TreeOf(r.root, s, DataBlocks(r.size)).Values);
    FreshContents(e.Ptrs(), s);
  }

  lemma OnDeviceLaid(l: Super, s: seq<Block>)
    requires OnDevice(l, s)
    ensures Laid(l.DataIds(), s)
  {}

  lemma FreeOfNone(l: Super, s: seq<Block>, m: map<int, FileRec>)
    ensures FreeOf(l, s, m, {})
  {
    hide Inode.Map;
  }

  lemma FreshContents(t: Root, s: seq<Block>)
    ensures forall c: seq<byte> :: Contents(t, s, 0) + c == c
  {}

  /** The table after the inode of a pending file is written. */
  lemma StoredNew(l: Super, s: seq<Block>, m: map<int, FileRec>, used: set<int>, id: Word, r: InodeRec, c: seq<byte>)
    requires Table(l, s, m, used) && id !in m && id as int in used && id < InodeCount(l) && Pending(l, s, m, r, c)
    requires r.kind == FILE || r.kind == DIRECTORY
    ensures FileAt(l, id).Placed(l.DataIds(), s)
    ensures var f := FileAt(l, id); var s' := s[f.pos.block := PutInode(s[f.pos.block], f.pos.slot, r)];
      && Table(l, s', m[id as int := FileRec(r.kind == DIRECTORY, r.links, c)], used)
      && f.Placed(l.DataIds(), s') && f.Map(l.DataIds(), s') == TreeOf(r.root, s, DataBlocks(r.size))
      && forall q | q in m :: 0 <= q && FileKept(l.DataIds(), FileAt(l, q), s, s')
  {
    hide Table, FileOk, GetInode, PutInode, TreeOf, Contents, DataBlocks, Spares, Used, FreeOf, FileKept;
    var f, bm := FileAt(l, id), l.DataIds();
    TableOnDevice(l, s, m, used);
    PlacedNew(l, s, id);
    var s', own := s[f.pos.block := PutInode(s[f.pos.block], f.pos.slot, r)],
      TreeOf(r.root, s, DataBlocks(r.size)).Values;
    f.StoreFile(bm, s, r);
    FileFacts(bm, r.root, s, DataBlocks(r.size));
    PatchSpares(bm, own, s, f.pos.block, s'[f.pos.block]);
    OthersRead(l, s, s', m, used, id);
    Others(l, s, s', m, used, own, own, {f.pos.block as int}, f.pos.block);
    OneMore(l, s', m, used, id, FileRec(r.kind == DIRECTORY, r.links, c));
  }

  lemma PlacedNew(l: Super, s: seq<Block>, id: Word)
    requires OnDevice(l, s) && id < InodeCount(l)
    ensures FileAt(l, id).Placed(l.DataIds(), s) && FileAt(l, id).pos.block >= l.AreaStart()
  {
    FilePlace(l, id, id);
  }

  /** Another pending file stays so. */
  lemma StillPending(l: Super, s: seq<Block>, s': seq<Block>, m: map<int, FileRec>, id: Word, rec: FileRec, r: InodeRec,
          c: seq<byte>)
    requires Pending(l, s, m, r, c) && FileAt(l, id).Placed(l.DataIds(), s) && FileAt(l, id).Placed(l.DataIds(), s')
    requires s' == s[FileAt(l, id).pos.block := s'[FileAt(l, id).pos.block]]
    requires forall q | q in m :: 0 <= q && FileKept(l.DataIds(), FileAt(l, q), s, s')
    requires FileAt(l, id).Map(l.DataIds(), s').Values !! TreeOf(r.root, s, DataBlocks(r.size)).Values
    ensures Pending(l, s', m[id as int := rec], r, c)
  {
    hide FileOk, GetInode, TreeOf, Contents, DataBlocks, Used, FileKept, Inode.Map;
    var b := FileAt(l, id).pos.block;
    FileElsewhere(l.DataIds(), r.root, s, DataBlocks(r.size), b, s'[b]);
    ContentsElsewhere(l.DataIds(), r.root, s, r.size, b, s'[b]);
    FreeOfKept(l, s, s', m, TreeOf(r.root, s, DataBlocks(r.size)).Values);
  }

  /** The record of a new file, as the table has it. */
  ghost function NewRec(rec: InodeRec): FileRec {
    FileRec(rec.kind == DIRECTORY, rec.links, [])
  }

  /** An inode for a file of no bytes. */
  ghost predicate Blank(rec: InodeRec) {
    rec.Ok() && rec.size == 0 && rec.root.indirect1 == 0 && rec.root.indirect2 == 0 &&
      (rec.kind == FILE || rec.kind == DIRECTORY)
  }

  /** The steps of create. A new directory needs one block, after what its parent needed. */
  method MakeFile(l: Super, dir: Word, name: seq<byte>, rec: InodeRec, dev: BlockDevice, ghost files: map<int, FileRec>,
          ghost used: set<int>, ghost live: set<int>)
    returns (ok: bool, id: Word, ghost files': map<int, FileRec>, ghost used': set<int>, ghost live': set<int>,
            ghost roomNew: bool)
    requires dev.Valid() && Holds(l, dev.View(), files, used, live) && dir in files && dir as int in live
    requires IsName(name) && Blank(rec)
    requires files[dir].isDir ==> DirBytes(files[dir].bytes) && |files[dir].bytes| + ENTRY < I31
    requires HasFreeInode(l, used)
    modifies dev, dev.disk, dev.cache
    ensures dev.Valid() && Holds(l, dev.View(), files', used', live') && (files[dir].isDir ==> id as int !in used)
    ensures files[dir].isDir ==> 1 + l.inodeBitmap <= id && forall i | 1 + l.inodeBitmap <= i < id :: i in used
    ensures live' == if ok then live + {id as int} else live
    ensures CreateEffect(files, used, files', used', dir, name, NewRec(rec), id,
      RoomFor(l, old(dev.View()), |files[dir].bytes|, ENTRY), roomNew, ok)
    ensures ok || (files[dir].isDir && rec.kind == DIRECTORY) ==>
      (roomNew <==> rec.kind == DIRECTORY && RoomForBoth(l, old(dev.View()), |files[dir].bytes|))
  {
    hide BlockDevice.Valid, Table, FileOk, GetInode, PutInode, TreeOf, Contents, DataBlocks, NodeCount, OnDevice, Copy,
      Shows, Pending, GrowthFits, Used, FreeOf, FileKept, Pack, DotEntries, CreateEffect, HasFreeInode, DirBytes,
      RoomFor, RoomForBoth;
    ghost var s0, m := dev.View(), Live(files, live);
    ghost var room := RoomFor(l, s0, |files[dir].bytes|, ENTRY);
    var d := ReadFile(l, dir, dev, m, used);
    CopyFacts(l, s0, d, m, dir);
    ok, id, files', used', live', roomNew := false, 0, files, used, live, false;
    NotCreated(files, used, dir, name, NewRec(rec), id, room, false);
    if d.kind != DIRECTORY { return; }
    id := AllocInode(l, dev, m, used);
    used' := used + {id as int};
    CopyKept(l, s0, dev.View(), d, m, m, used', dir);
    RoomSame(l, s0, dev.View(), |files[dir].bytes|, ENTRY);
    NotCreated(files, used, dir, name, NewRec(rec), id, room, false);
    ok := GrowDir(l, dir, d, Pack(name, id), dev, m, used');
    BothNeedRoom(l, s0, |files[dir].bytes|);
    if !ok { return; }
    RoomNewIs(l, s0, dev.View(), |files[dir].bytes|);
    DotsLength(id, dir);
    TableFacts(l, dev.View(), m, used', dir);
    ghost var w, c := m - {dir as int}, files[dir].bytes + Pack(name, id);
    var e := new DiskInode.FromRec(rec);
    if e.kind == DIRECTORY {
      ok := FillNew(l, e, DotEntries(id, dir), dev, m, w, used', d.Rec(), c);
      roomNew := ok;
      if !ok {
        NotCreated(files, used, dir, name, NewRec(rec), id, room, false);
        return;
      }
    } else {
      NothingIn(l, dev.View(), w, used', rec, d.Rec());
    }
    StoreBoth(l, dir, d, id, e, dev, w, used', c, NewBytes(rec, id, dir));
    files', live' := NewFiles(files, dir, name, rec, id), live + {id as int};
    CreateDone(files, used, live, dir, name, rec, id, roomNew);
  }

  /** create */
  method Create(l: Super, dir: Word, name: seq<byte>, rec: InodeRec, dev: BlockDevice, ghost files: map<int, FileRec>,
          ghost used: set<int>, ghost live: set<int>)
    returns (ok: bool, id: Word, ghost files': map<int, FileRec>, ghost used': set<int>, ghost live': set<int>,
            ghost roomNew: bool)
    requires dev.Valid() && Holds(l, dev.View(), files, used, live) && dir in files && dir as int in live
    requires IsName(name) && |rec.stamps| == 3 && |rec.root.direct| == 23
    requires rec.size == rec.root.indirect1 == rec.root.indirect2 == 0 && (rec.kind == 0 || rec.kind == 1)
    requires files[dir].isDir ==> DirBytes(files[dir].bytes) && |files[dir].bytes| + ENTRY < I31
    requires HasFreeInode(l, used)
    modifies dev, dev.disk, dev.cache
    ensures dev.Valid() && Holds(l, dev.View(), files', used', live') && (files[dir].isDir ==> id as int !in used)
    ensures files[dir].isDir ==> 1 + l.inodeBitmap <= id && forall i | 1 + l.inodeBitmap <= i < id :: i in used
    ensures live' == if ok then live + {id as int} else live
    ensures CreateEffect(files, used, files', used', dir, name, NewRec(rec), id,
      RoomFor(l, old(dev.View()), |files[dir].bytes|, ENTRY), roomNew, ok)
    ensures ok || (files[dir].isDir && rec.kind == DIRECTORY) ==>
      (roomNew <==> rec.kind == DIRECTORY && RoomForBoth(l, old(dev.View()), |files[dir].bytes|))
    ensures ok ==>
      var kept, before := if |name| <= 251 then name else name[..251], Names(files[dir]);
      dir in files' && Names(files'[dir]) == if kept in before then before else before[kept := id]
    ensures ok ==>
      && id in files' && files'[id].isDir == (rec.kind == DIRECTORY) && files'[id].links == rec.links
      && (rec.kind != DIRECTORY ==> files'[id].bytes == [])
      && (rec.kind == DIRECTORY ==>
          && Entries(files'[id].bytes) == [Entry([46], id), Entry([46, 46], dir)]
          && Names(files'[id]) == map[[46] := id, [46, 46] := dir])
  {
    hide BlockDevice.Valid, CreateEffect, Table, HasFreeInode, RoomFor, RoomForBoth, Names, Entries, Bindings;
    ghost var room := RoomFor(l, dev.View(), |files[dir].bytes|, ENTRY);
    ok, id, files', used', live', roomNew := MakeFile(l, dir, name, rec, dev, files, used, live);
    if ok {
      CreateOther(files, used, files', used', dir, name, NewRec(rec), id, room, roomNew);
      CreateMeans(files, used, files', used', dir, name, NewRec(rec), id, room, roomNew, true);
    }
  }

  /** The directory of a new name is in use, and the new inode was not. */
  lemma CreateOther(files: map<int, FileRec>, used: set<int>, files': map<int, FileRec>, used': set<int>, dir: int,
          name: seq<byte>, rec: FileRec, id: Word, roomParent: bool, roomNew: bool)
    requires CreateEffect(files, used, files', used', dir, name, rec, id, roomParent, roomNew, true)
    ensures dir in files && files[dir].isDir
  {}

  /** There are ids for one more entry of a directory, and then for one more block. */
  ghost predicate RoomForBoth(l: Super, s: seq<Block>, size: nat) {
    l.DataIds().Fits(s) &&
    var growth := NodeCount(DataBlocks(size + ENTRY)) - NodeCount(DataBlocks(size));
    |Used(l.DataIds(), s)| + growth + 1 <= l.DataIds().num * BLOCK_BITS
  }

  lemma BothNeedRoom(l: Super, s: seq<Block>, size: nat)
    ensures RoomForBoth(l, s, size) ==> RoomFor(l, s, size, ENTRY)
  {}

  lemma RoomNewIs(l: Super, s0: seq<Block>, s: seq<Block>, size: nat)
    requires l.DataIds().Fits(s0) && l.DataIds().Fits(s)
    requires |Used(l.DataIds(), s)| ==
      |Used(l.DataIds(), s0)| + NodeCount(DataBlocks(size + ENTRY)) - NodeCount(DataBlocks(size))
    ensures RoomFor(l, s, 0, 2 * ENTRY) <==> RoomForBoth(l, s0, size)
  {
    assert DataBlocks(2 * ENTRY) == 1 && DataBlocks(0) == 0 && NodeCount(1) == 1 && NodeCount(0) == 0;
  }

  lemma DotsLength(id: Word, dir: Word)
    ensures |DotEntries(id, dir)| == 2 * ENTRY
  {}

  /** What a new file holds. */
  function NewBytes(rec: InodeRec, id: Word, dir: Word): seq<byte> {
    if rec.kind == DIRECTORY then DotEntries(id, dir) else []
  }

  ghost function NewFiles(files: map<int, FileRec>, dir: Word, name: seq<byte>, rec: InodeRec,
          id: Word): map<int, FileRec>
    requires dir in files
  {
    var parent := files[dir].(bytes := files[dir].bytes + Pack(name, id));
    files[id as int := NewRec(rec).(bytes := NewBytes(rec, id, dir))][dir as int := parent]
  }

  lemma NotCreated(files: map<int, FileRec>, used: set<int>, dir: int, name: seq<byte>, rec: FileRec, id: Word,
          room: bool, roomNew: bool)
    requires dir in files
    ensures !files[dir].isDir ==> CreateEffect(files, used, files, used, dir, name, rec, id, room, roomNew, false)
    ensures files[dir].isDir && !(room && (rec.isDir ==> roomNew)) ==>
      CreateEffect(files, used, files, used + {id as int}, dir, name, rec, id, room, roomNew, false)
  {}

  lemma CreateDone(files: map<int, FileRec>, used: set<int>, live: set<int>, dir: Word, name: seq<byte>, rec: InodeRec,
          id: Word, roomNew: bool)
    requires dir in files && dir as int in live && files[dir].isDir && DirBytes(files[dir].bytes)
    requires |files[dir].bytes| + ENTRY < I31
    requires IsName(name) && id != dir && id as int !in live && (rec.kind == DIRECTORY ==> roomNew)
    ensures var files' := NewFiles(files, dir, name, rec, id);
      && CreateEffect(files, used, files', used + {id as int}, dir, name, NewRec(rec), id, true, roomNew, true)
      && Live(files', live + {id as int}) ==
         (Live(files, live) - {dir as int})[id as int := files'[id]][dir as int := files'[dir]]
  {
    hide Bindings, Entries, Unique, Short, Pack, DotEntries;
    AppendIs(files[dir].bytes, name, id);
    assert [] + DotEntries(id, dir) == DotEntries(id, dir);
    assert dir % U32 == dir;
  }

  /** A new file that is no directory has no blocks. */
  lemma NothingIn(l: Super, s: seq<Block>, w: map<int, FileRec>, used: set<int>, rec: InodeRec, r: InodeRec)
    requires Table(l, s, w, used) && Blank(rec)
    ensures Pending(l, s, w, rec, []) && TreeOf(rec.root, s, DataBlocks(rec.size)).Values == {}
  {
    hide Table, Used, FileOk, OnDevice;
    TableOnDevice(l, s, w, used);
    OnDeviceLaid(l, s);
    FreshFile(l.DataIds(), rec.root, s);
    NoBlocks();
    FreshContents(rec.root, s);
    assert Contents(rec.root, s, 0) == [];
    FreeOfNone(l, s, w);
  }

  /** The inodes of the new file and of its directory are written, in this order. */
  method StoreBoth(l: Super, dir: Word, d: DiskInode, id: Word, e: DiskInode, dev: BlockDevice, ghost w: map<int,
          FileRec>, ghost used: set<int>, ghost c: seq<byte>, ghost c1: seq<byte>)
    requires dev.Valid() && Table(l, dev.View(), w, used) && dir !in w && id !in w && dir != id
    requires dir as int in used && id as int in used && dir < InodeCount(l) && id < InodeCount(l)
    requires (d.kind == FILE || d.kind == DIRECTORY) && (e.kind == FILE || e.kind == DIRECTORY)
    requires Pending(l, dev.View(), w, d.Rec(), c) && Pending(l, dev.View(), w, e.Rec(), c1)
    requires e.Blocks(dev.View()).Values !! d.Blocks(dev.View()).Values
    modifies dev, dev.disk, dev.cache
    ensures dev.Valid()
    ensures Table(l, dev.View(), w[id as int := FileRec(e.kind == DIRECTORY, e.links, c1)]
                                  [dir as int := FileRec(d.kind == DIRECTORY, d.links, c)], used)
  {
    hide BlockDevice.Valid, Table, FileOk, GetInode, PutInode, TreeOf, Contents, DataBlocks, FreeOf, FileKept;
    ghost var s3, r := dev.View(), d.Rec();
    ghost var crec := FileRec(e.kind == DIRECTORY, e.links, c1);
    StoredNew(l, s3, w, used, id, e.Rec(), c1);
    e.WriteInode(FileAt(l, id).pos, dev);
    StillPending(l, s3, dev.View(), w, id, crec, r, c);
    StoredNew(l, dev.View(), w[id as int := crec], used, dir, r, c);
    d.WriteInode(FileAt(l, dir).pos, dev);
  }

  /** A device on which nothing is in use. */
  ghost predicate Empty(l: Super, s: seq<Block>) {
    OnDevice(l, s) && 0 < l.dataBitmap && l.DataIds().Fits(s) && l.InodeIds().Fits(s)
    && Used(l.InodeIds(), s) == {} && Used(l.DataIds(), s) == {}
  }

  /** A device of zeros laid out by create is one. */
  lemma NewDevice(total: Word, inodeBitmap: Word, s: seq<Block>)
    requires 0 < inodeBitmap && 1025 * inodeBitmap <= total == |s| < 0xFFFF_FFFF
    requires Layout.Create(total, inodeBitmap).End() <= total
    requires Layout.Create(total, inodeBitmap).dataBitmap > 0 && 1 + 32769 * inodeBitmap < 0xFFFF_FFFF
    requires forall b, k | 0 <= b < |s| && 0 <= k < 4096 :: s[b][k] == 0
    ensures Empty(Layout.Create(total, inodeBitmap), s)
  {
    hide Used;
    var l := Layout.Create(total, inodeBitmap);
    Sizes(total, inodeBitmap);
    NoneUsed(l.InodeIds(), s);
    NoneUsed(l.DataIds(), s);
  }

  lemma NoneUsed(bm: Area, s: seq<Block>)
    requires bm.Fits(s) && forall b, k | 0 <= b < |s| && 0 <= k < 4096 :: s[b][k] == 0
    ensures Used(bm, s) == {}
  {
    hide Used, IsUsed;
    forall id
      ensures id !in Used(bm, s)
    {
      UsedByte(bm, s, id);
      ZeroBit((id - bm.offset) % 32768);
    }
  }

  lemma ZeroBit(k: int)
    ensures Two(k % 8) > 0 && 0 / Two(k % 8) % 2 == 0
  {
    BitIs(0, k % 8);
    NoBits(k % 8);
  }

  /** The first block of the root directory. */
  function RootBlock(root: Word): Block {
    DotEntries(root, root) + Zeros(BLOCK_SIZE - |DotEntries(root, root)|)
  }

  /** createRoot: the table of a new file system is the one that a FileTable starts with. */
  method CreateRoot(l: Super, rec: InodeRec, dev: BlockDevice) returns (root: Word)
    requires dev.Valid() && Empty(l, dev.View()) && |rec.stamps| == 3 && |rec.root.direct| == 23
    requires rec.size == rec.root.indirect1 == rec.root.indirect2 == 0 && rec.kind == 1 && rec.links == 1
    modifies dev, dev.disk, dev.cache
    ensures dev.Valid() && root == l.AreaStart()
    ensures Holds(l, dev.View(), map[root as int := FileRec(true, 1, DotEntries(root, root))], {root as int},
      {root as int})
    ensures Entries(DotEntries(root, root)) == [Entry([46], root), Entry([46, 46], root)]
  {
    hide BlockDevice.Valid, Holds, Empty, Entries, DotEntries;
    root := WriteRoot(l, rec, dev);
    DotNames(root, root);
  }

  method WriteRoot(l: Super, rec: InodeRec, dev: BlockDevice) returns (root: Word)
    requires dev.Valid() && Empty(l, dev.View()) && Blank(rec) && rec.kind == DIRECTORY && rec.links == 1
    modifies dev, dev.disk, dev.cache
    ensures dev.Valid() && root == l.AreaStart()
    ensures Holds(l, dev.View(), map[root as int := FileRec(true, 1, DotEntries(root, root))], {root as int},
      {root as int})
  {
    hide BlockDevice.Valid, Table, Marked, Used, FileOk, PutInode, GetInode, DotEntries, RootBlock, Contents,
      DataBlocks, OnDevice, Holds, Empty, Area.Fits, Inode.Placed;
    ghost var s := dev.View();
    FirstIds(l, s);
    root := Bitmaps.Alloc(l.InodeIds(), dev);
    assert root == l.AreaStart();
    RootTaken(l, s, root);
    ghost var s1 := dev.View();
    var data := Bitmaps.Alloc(l.DataIds(), dev);
    RootReady(l, s1, root, data);
    var d := new DiskInode.FromRec(rec);
    d.size, d.direct := 2 * ENTRY, d.direct[0 := data];
    d.WriteInode(FileAt(l, root).pos, dev);
    dev.Write(data, RootBlock(root));
    RootStored(l, s1, root, rec, data, dev.View());
  }

  lemma RootReady(l: Super, s1: seq<Block>, root: Word, data: Word)
    requires OnDevice(l, s1) && l.DataIds().Fits(s1) && root < InodeCount(l) && l.DataIds().Manages(data)
    ensures data as int < |s1| && FileAt(l, root).Placed(l.DataIds(), s1)
    ensures FileAt(l, root).pos.block < |s1| && FileAt(l, root).pos.slot < INODES_IN_BLOCK
    ensures |Marked(l.DataIds(), s1, data)| == |s1|
  {
    FilePlace(l, root, root);
  }

  /** The inode of the root, once it has its block. */
  ghost function RootRec(rec: InodeRec, data: Word): InodeRec
    requires rec.Ok()
  {
    rec.(size := 2 * ENTRY, root := rec.root.(direct := rec.root.direct[0 := data]))
  }

  lemma FirstIds(l: Super, s: seq<Block>)
    requires Empty(l, s)
    ensures l.InodeIds().Fits(s) && l.InodeIds().Manages(l.AreaStart()) && l.AreaStart() !in Used(l.InodeIds(), s)
    ensures l.InodeIds().offset == l.AreaStart() < InodeCount(l) && l.AreaStart() < U32
  {}

  lemma RootTaken(l: Super, s: seq<Block>, root: Word)
    requires Empty(l, s) && l.InodeIds().Fits(s) && l.InodeIds().Manages(root)
    ensures var s1 := Marked(l.InodeIds(), s, root);
      && Table(l, s1, map[], {root as int}) && l.DataIds().Fits(s1) && Used(l.DataIds(), s1) == {}
      && OnDevice(l, s1) && l.DataIds().Manages(l.DataStart())
  {
    hide Used, Marked;
    assert Table(l, s, map[], {}) by { NoTable(l, s); }
    InodeTaken(l, s, map[], {}, root);
    TableOnDevice(l, Marked(l.InodeIds(), s, root), map[], {root as int});
  }

  lemma NoTable(l: Super, s: seq<Block>)
    requires Empty(l, s)
    ensures Table(l, s, map[], {})
  {}

  /** The tree of the root: one block. */
  lemma RootTree(l: Super, s1: seq<Block>, rec: InodeRec, data: Word)
    requires Blank(rec) && OnDevice(l, s1) && l.DataIds().Fits(s1) && l.DataIds().Manages(data)
    requires data !in Used(l.DataIds(), s1)
    ensures data as int < |s1| && l.DataIds().Fits(Marked(l.DataIds(), s1, data))
    ensures SameOutside(l.DataIds(), s1, Marked(l.DataIds(), s1, data)) && !l.DataIds().IsBitmapBlock(data)
    ensures var s2, t := Marked(l.DataIds(), s1, data), RootRec(rec, data).root;
      FileOk(l.DataIds(), t, s2, 1) && TreeOf(t, s2, 1) == map[Data(0) := data as int]
  {
    hide Used, Marked, FileOk, TreeOf, OnDevice, Growing, GrownExactly, NodeCount;
    var bm, t, t' := l.DataIds(), rec.root, RootRec(rec, data).root;
    OnDeviceLaid(l, s1);
    FreshFile(bm, t, s1);
    FileStart(bm, t, s1, 0);
    GrowRoot(bm, t, t', s1, map[], map[], Used(bm, s1), s1, Data(0), data);
    var s2, m := Marked(bm, s1, data), map[Data(0) := data as int];
    GrowingFacts(bm, t', s2, m, map[], Used(bm, s1), s1);
    MarkedUsed(bm, s1, data);
    assert At(m, 1, false, false, Seconds(1));
    assert map[][Data(0) := data as int] == m;
    GrowthDone(bm, t', s2, m, map[], s1, 0, 1);
  }

  /** The file of the root. */
  lemma RootPending(l: Super, s1: seq<Block>, root: Word, rec: InodeRec, data: Word)
    requires Blank(rec) && OnDevice(l, s1) && l.DataIds().Fits(s1) && l.DataIds().Manages(data)
    requires data !in Used(l.DataIds(), s1)
    ensures data as int < |s1| && l.DataIds().Fits(Marked(l.DataIds(), s1, data))
    ensures var s := Marked(l.DataIds(), s1, data)[data as int := RootBlock(root)]; var r := RootRec(rec, data);
      && r.Ok() && FileOk(l.DataIds(), r.root, s, DataBlocks(r.size))
      && Contents(r.root, s, r.size) == DotEntries(root, root)
      && |s| == |s1| && SameOutside(l.DataIds(), s1, Marked(l.DataIds(), s1, data))
  {
    hide Used, Marked, DotEntries, FileOk, TreeOf, Contents, DataBlocks, OnDevice, RootBlock;
    RootTree(l, s1, rec, data);
    var t, s2 := RootRec(rec, data).root, Marked(l.DataIds(), s1, data);
    var s := s2[data as int := RootBlock(root)];
    FileFrame(l.DataIds(), t, s2, s, 1);
    RootContents(t, s, root, data);
  }

  lemma RootContents(t: Root, s: seq<Block>, root: Word, data: Word)
    requires |t.direct| == DIRECT && t.direct[0] == data && data as int < |s| && s[data] == RootBlock(root)
    ensures Contents(t, s, 2 * ENTRY) == DotEntries(root, root) && DataBlocks(2 * ENTRY) == 1
  {
    hide DotEntries;
    DotsLength(root, root);
    forall k | 0 <= k < 2 * ENTRY
      ensures ByteAt(t, s, k) == DotEntries(root, root)[k]
    {
      assert k / BLOCK_SIZE == 0;
    }
  }

  /** The inode and the block of the root are written. */
  lemma RootStored(l: Super, s1: seq<Block>, root: Word, rec: InodeRec, data: Word, s4: seq<Block>)
    requires Blank(rec) && rec.kind == DIRECTORY && rec.links == 1
    requires Table(l, s1, map[], {root as int}) && root < InodeCount(l) && FileAt(l, root).Placed(l.DataIds(), s1)
    requires l.DataIds().Fits(s1) && l.DataIds().Manages(data) && data !in Used(l.DataIds(), s1) && data as int < |s1|
    requires var s2, f := Marked(l.DataIds(), s1, data), FileAt(l, root);
      && |s2| == |s1| && f.pos.block < |s2|
      && s4 == s2[f.pos.block := PutInode(s2[f.pos.block], f.pos.slot, RootRec(rec, data))]
                 [data as int := RootBlock(root)]
    ensures Holds(l, s4, map[root as int := FileRec(true, 1, DotEntries(root, root))], {root as int}, {root as int})
  {
    hide Table, Used, Marked, DotEntries, PutInode, FileOk, GetInode, Contents, TreeOf, DataBlocks, RootBlock, Spares,
      OnDevice;
    var bm, f, r, m := l.DataIds(), FileAt(l, root), RootRec(rec, data),
      map[root as int := FileRec(true, 1, DotEntries(root, root))];
    var s2 := Marked(bm, s1, data)[data as int := RootBlock(root)];
    TableOnDevice(l, s1, map[], {root as int});
    RootPending(l, s1, root, rec, data);
    RootSpares(l, s1, s2, data);
    NothingHit(l);
    Others(l, s1, s2, map[], {root as int}, {}, {data as int}, {}, -1);
    assert Pending(l, s2, map[], r, DotEntries(root, root));
    StoredNew(l, s2, map[], {root as int}, root, r, DotEntries(root, root));
    assert map[][root as int := FileRec(true, 1, DotEntries(root, root))] == m;
    assert f.pos.block != data;
    assert s4 == s2[f.pos.block := PutInode(s2[f.pos.block], f.pos.slot, r)];
    assert Live(m, {root as int}) == m;
  }

  lemma RootSpares(l: Super, s1: seq<Block>, s2: seq<Block>, data: Word)
    requires OnDevice(l, s1) && l.DataIds().Fits(s1) && l.DataIds().Manages(data) && data !in Used(l.DataIds(), s1)
    requires data as int < |s1|
    requires |Marked(l.DataIds(), s1, data)| == |s1| == |s2|
    requires s2 == Marked(l.DataIds(), s1, data)[data as int := s2[data]]
    ensures Spares(l.DataIds(), {}, {data as int}, s1, s2, {})
  {
    hide Used, Marked;
    var bm := l.DataIds();
    MarkedUsed(bm, s1, data);
    SameBitmap(bm, Marked(bm, s1, data), s2);
    ManagedOnly(bm, s1);
  }
}
