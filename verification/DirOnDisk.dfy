/** The directory operations on the device: what the searches and entry updates of a
    directory read and write, through its inode and its tree. */
module DirOnDisk {
  import opened Blocks
  import opened BitmapModel
  import opened Tree
  import opened InodeCodec
  import opened Growth
  import opened FileSize
  import opened FileBytes
  import opened Device
  import opened Inodes
  import opened InodeFile
  import opened Volume
  import opened DirEntries
  import opened DirScan
  import opened Files
  import opened Wrappers

  /** A directory on the device. */
  ghost predicate IsDir(bm: Area, q: Inode, s: seq<Block>) {
    q.Stored(bm, s) && q.Rec(bm, s).kind == DIRECTORY && DirBytes(q.Bytes(bm, s))
  }

  /** Its names. */
  ghost function NamesOn(bm: Area, q: Inode, s: seq<Block>): map<seq<byte>, Word> {
    if q.Placed(bm, s) then Bindings(Entries(q.Bytes(bm, s))) else map[]
  }

  ghost function SizeOn(bm: Area, q: Inode, s: seq<Block>): Word {
    if q.Placed(bm, s) then q.Rec(bm, s).size else 0
  }

  /** There are ids for one more entry. */
  ghost predicate EntryFits(bm: Area, q: Inode, s: seq<Block>) {
    bm.Fits(s) && GrowthFits(bm, s, SizeOn(bm, q, s), SizeOn(bm, q, s) + ENTRY)
  }

  /** Where the stray write of a removal goes. */
  function StrayOfCut(size: nat, repaired: bool): int {
    if size >= ENTRY then StrayOf(size, size - ENTRY, repaired) else -1
  }

  /** The bytes of a file have changed, and all that changed on the device are its
      blocks, its inode and the block of a stray write; the other inodes in the block of
      its own are as they were, unless that is the one hit. */
  ghost predicate Rewritten(bm: Area, q: Inode, s0: seq<Block>, s: seq<Block>, stray: int) {
    && q.Stored(bm, s0) && q.Stored(bm, s)
    && q.Rec(bm, s) == q.Rec(bm, s0).(size := q.Rec(bm, s).size, root := q.Rec(bm, s).root)
    && Spares(bm, q.Map(bm, s0).Values, q.Map(bm, s).Values, s0, s, {stray, q.pos.block as int})
    && (stray != q.pos.block ==> q.OthersKept(bm, s0, s))
  }

  /** A directory has other names. */
  ghost predicate Renames(bm: Area, q: Inode, s0: seq<Block>, s: seq<Block>, names: map<seq<byte>, Word>, stray: int) {
    Rewritten(bm, q, s0, s, stray) && IsDir(bm, q, s) && NamesOn(bm, q, s) == names
  }

  /** A directory on the device binds a name exactly if one of the entries in its bytes does. */
  lemma NamesOnIs(bm: Area, q: Inode, s: seq<Block>, n: seq<byte>, w: Word)
    requires IsDir(bm, q, s)
    ensures q.Placed(bm, s) && q.Rec(bm, s).kind == 1
    ensures n in NamesOn(bm, q, s) && NamesOn(bm, q, s)[n] == w <==>
      exists k: nat :: 256 * k + 256 <= |q.Bytes(bm, s)| && EntryAt(q.Bytes(bm, s), k) == Entry(n, w)
  {
    hide GetInode, FileOk, Contents, DirBytes, Bindings, Entries, EntryAt;
    NamesAt(FileRec(true, 0, q.Bytes(bm, s)), n, w);
  }

  /** What a change of a file or directory leaves to another file: all of it. */
  lemma OthersStay(bm: Area, q: Inode, p: Inode, s0: seq<Block>, s: seq<Block>, stray: int)
    requires Rewritten(bm, q, s0, s, stray) && stray != q.pos.block && p.pos.block != stray
    requires Disjoint(bm, s0, q, p)
    ensures p.Stored(bm, s) && p.Placed(bm, s0) && p.Rec(bm, s) == p.Rec(bm, s0)
    ensures p.Map(bm, s) == p.Map(bm, s0) && p.Bytes(bm, s) == p.Bytes(bm, s0)
    ensures q.Stored(bm, s) && q.Placed(bm, s0) && q.Rec(bm, s).links == q.Rec(bm, s0).links
    ensures q.Rec(bm, s).kind == q.Rec(bm, s0).kind && q.Map(bm, s).Values !! p.Map(bm, s).Values
  {
    hide GetInode, FileOk, TreeOf, Spares, DataBlocks, Contents;
    Neighbour(bm, q, p, s0, s, {stray, q.pos.block as int});
  }

  lemma RenamesMeans(bm: Area, q: Inode, s0: seq<Block>, s: seq<Block>, names: map<seq<byte>, Word>, stray: int)
    requires Renames(bm, q, s0, s, names, stray)
    ensures IsDir(bm, q, s) && NamesOn(bm, q, s) == names && Rewritten(bm, q, s0, s, stray)
  {}

  /** There is room for an entry if the last block of the directory has some, or else if
      the ids free are as many as the blocks lacking. */
  lemma EntryFitsIs(bm: Area, q: Inode, s: seq<Block>)
    requires q.Placed(bm, s) && bm.Fits(s) && q.Rec(bm, s).size % 256 == 0
    ensures EntryFits(bm, q, s) <==>
      var n := q.Rec(bm, s).size / 4096;
      q.Rec(bm, s).size % 4096 != 0 || |Used(bm, s)| + |Nodes(n + 1)| - |Nodes(n)| <= bm.num * 32768
  {
    hide GetInode, Used, Nodes, GrowthFits;
    GrowthFitsIs(bm, s, q.Rec(bm, s).size, q.Rec(bm, s).size + ENTRY);
  }

  lemma RenamesFrom(bm: Area, q: Inode, s0: seq<Block>, s: seq<Block>, stray: int)
    requires IsDir(bm, q, s0) && Rewritten(bm, q, s0, s, stray) && DirBytes(q.Bytes(bm, s))
    ensures Renames(bm, q, s0, s, Bindings(Entries(q.Bytes(bm, s))), stray)
  {
    hide GetInode, FileOk, TreeOf, Contents, DirBytes, Spares, Bindings, Entries;
  }

  /** The search, block by block through one buffer. What a read at the very end of the
      directory does shows in atEnd. */
  method ScanOnDisk(d: DiskInode, name: seq<byte>, dev: BlockDevice, bm: Area) returns (r: Found, ghost atEnd: bool)
    requires dev.Valid() && d.Intact(bm, dev.View()) && DirBytes(d.Bytes(dev.View())) && IsName(name)
    modifies dev, dev.disk, dev.cache
    ensures dev.Valid() && dev.View() == old(dev.View()) && dev.history == old(dev.history)
    ensures r.Hit? ==> r.j < SLOTS && r.i < DataBlocks(d.size) && r.i * SLOTS + r.j < |Entries(d.Bytes(dev.View()))|
    ensures r.Hit? ==> Entries(d.Bytes(dev.View()))[r.i * SLOTS + r.j] == r.entry && r.entry.name == name
    ensures r.Hit? <==> name in Bindings(Entries(d.Bytes(dev.View())))
    ensures r.Hit? ==> Bindings(Entries(d.Bytes(dev.View())))[name] == r.entry.inode
    ensures r.Miss? <==> name !in Bindings(Entries(d.Bytes(dev.View()))) && Searches(d.size, atEnd)
  {
    hide BlockDevice.Valid, DiskInode.Intact, Unpack, Bindings, Clear, Unique, Short, TotalBlocks, DataBlocks, Contents,
      MovedBytes, Returns, Addressable, Slot,
      ReadBlock;
    ghost var c := d.Bytes(dev.View());
    Counts(|c|);
    BlockCount(d.size);
    var totBlocks := TotalBlocks(d.size);
    var buf: Block := seq(4096, _ => 0);
    FreshBuffer(buf, name);
    atEnd := false;
    var i := 0;
    while i < totBlocks
      invariant 0 <= i <= totBlocks && Clear(buf, name) && NotBefore(c, name, i * SLOTS)
      invariant dev.Valid() && dev.View() == old(dev.View()) && dev.history == old(dev.history)
      invariant i > DataBlocks(|c|) ==> |c| % BLOCK_SIZE == 0 && i == DataBlocks(|c|) + 1 && atEnd
    {
      var ret, data := d.ReadData(i * BLOCK_SIZE, buf, BLOCK_SIZE, dev, bm);
      if i * BLOCK_SIZE == |c| { atEnd := ret != -1; }
      ReadOnDisk(c, i, buf, ret, data, atEnd);
      ReadOutcome(c, i, buf, atEnd);
      if ret == -1 {
        NotThere(c, name, i * SLOTS);
        return Broken, atEnd;
      }
      var hit := ScanBlock(c, i, buf, data, name, atEnd);
      if hit.Some? {
        HitBinding(c, name, i * SLOTS + hit.value);
        return Hit(i, hit.value, Slot(data, hit.value)), atEnd;
      }
      buf := data;
      i := i + 1;
    }
    NotThere(c, name, i * SLOTS);
    r := Miss;
  }

  /** Below 2 GiB the offsets of all blocks that a search asks for are 32-bit numbers. */
  lemma BlockCount(size: Word)
    requires size < I31
    ensures TotalBlocks(size) < 0x10_0000
    ensures forall i: nat | i < TotalBlocks(size) ::
      i * BLOCK_SIZE < U32 && Addressable(i * BLOCK_SIZE, BLOCK_SIZE, size)
  {}

  /** A read of the device is the read of the search. */
  lemma ReadOnDisk(c: seq<byte>, i: nat, buf: Block, ret: int, data: seq<byte>, atEnd: bool)
    requires |c| < I31 && i * BLOCK_SIZE < U32
    requires i * BLOCK_SIZE > |c| ==> ret == -1 && data == buf
    requires i * BLOCK_SIZE <= |c| ==>
      var offset, n := i * BLOCK_SIZE, Min(BLOCK_SIZE, |c| - i * BLOCK_SIZE); var m := MovedBytes(offset, n);
      Returns(ret, offset, n, |c|) && offset + m <= |c| && data == c[offset..offset + m] + buf[m..]
    requires i * BLOCK_SIZE == |c| ==> atEnd == (ret != -1)
    ensures ReadBlock(c, i, buf, atEnd) == if ret == -1 then None else Some(data)
  {
    if i * BLOCK_SIZE <= |c| {
      var offset, n := i * BLOCK_SIZE, Min(BLOCK_SIZE, |c| - i * BLOCK_SIZE);
      assert MovedBytes(offset, n) == n;
    }
    if i * BLOCK_SIZE == |c| {
      assert buf[0..] == buf && c[|c|..|c|] + buf == buf;
    }
  }

  /** find */
  method Find(q: Inode, name: seq<byte>, dev: BlockDevice, bm: Area) returns (r: Option<Word>)
    requires dev.Valid() && IsDir(bm, q, dev.View()) && IsName(name)
    modifies dev, dev.disk, dev.cache
    ensures dev.Valid() && dev.View() == old(dev.View())
    ensures r == if name in NamesOn(bm, q, dev.View()) then Some(NamesOn(bm, q, dev.View())[name]) else None
  {
    hide BlockDevice.Valid, FileOk, GetInode, Bindings, Entries, Contents, DirBytes, DataBlocks, Searches;
    var d := q.ReadInode(dev, bm);
    var hit, _ := ScanOnDisk(d, name, dev, bm);
    r := if hit.Hit? then Some(hit.entry.inode) else None;
  }

  /** What removal does to the directory file: the last entry takes the place of the
      one found and the file is cut. */
  method CutName(q: Inode, name: seq<byte>, repaired: bool, dev: BlockDevice, bm: Area) returns (r: Option<Word>)
    requires dev.Valid() && bm.Fits(dev.View()) && IsDir(bm, q, dev.View()) && IsName(name)
    requires StrayOfCut(SizeOn(bm, q, dev.View()), repaired) < bm.start
    modifies dev, dev.disk, dev.cache
    ensures dev.Valid()
    ensures r == if name in old(NamesOn(bm, q, dev.View())) then Some(old(NamesOn(bm, q, dev.View()))[name]) else None
    ensures r.None? ==> dev.View() == old(dev.View())
    ensures r.Some? ==> Renames(bm, q, old(dev.View()), dev.View(), old(NamesOn(bm, q, dev.View())) - {name},
                                StrayOfCut(old(SizeOn(bm, q, dev.View())), repaired))
  {
    hide BlockDevice.Valid, FileOk, GetInode, Bindings, Entries, Contents, DirBytes, DataBlocks, TotalBlocks, CutEntry,
      Spares, SizeChanged, TreeOf, Unique, Short, PutInode, Renames, Rewritten, Searches, StrayOf, StrayOfCut,
      EntryFits, Unpack;
    ghost var s0 := dev.View();
    var d := q.ReadInode(dev, bm);
    ghost var c := d.Bytes(s0);
    var hit, _ := ScanOnDisk(d, name, dev, bm);
    if !hit.Hit? {
      return None;
    }
    CutEntryIs(c, hit.i, hit.j);
    EntryRange(c, hit.i * SLOTS + hit.j);
    CutFound(q, d, hit.i, hit.j, repaired, dev, bm);
    RenamesFrom(bm, q, s0, dev.View(), StrayOfCut(|c|, repaired));
    r := Some(hit.entry.inode);
  }

  /** The entry in slot j of block i is taken out. */
  method CutFound(q: Inode, d: DiskInode, i: nat, j: nat, repaired: bool, dev: BlockDevice, bm: Area)
    requires dev.Valid() && bm.Fits(dev.View()) && q.Stored(bm, dev.View()) && d.Rec() == q.Rec(bm, dev.View())
    requires d.Rec().Ok()
    requires d.size < I31 && j < SLOTS && (i * SLOTS + j + 1) * ENTRY <= |d.Bytes(dev.View())|
    requires StrayOfCut(d.size, repaired) < bm.start
    modifies d, dev, dev.disk, dev.cache
    ensures dev.Valid() && (i * SLOTS + j + 1) * ENTRY <= |old(d.Bytes(dev.View()))|
    ensures Rewritten(bm, q, old(dev.View()), dev.View(), StrayOfCut(old(d.size), repaired))
    ensures q.Placed(bm, dev.View()) &&
            q.Bytes(bm, dev.View()) == CutEntry(old(d.Bytes(dev.View())), TotalBlocks(old(d.size)), i, j)
  {
    hide BlockDevice.Valid, FileOk, GetInode, Contents, DataBlocks, TotalBlocks, CutEntry, Spares, SizeChanged, TreeOf,
      PutInode, Rewritten, StrayOf, Overwritten;
    ghost var s0, c := dev.View(), d.Bytes(dev.View());
    MoveEntry(d, i, j, dev, bm);
    ghost var s1 := dev.View();
    BlocksMonotone(d.size - ENTRY, d.size);
    Shorten(d, d.size - ENTRY, repaired, dev, bm, q.pos);
    CutDone(bm, q, s0, s1, dev.View(), d.Rec(), StrayOfCut(|c|, repaired), CutEntry(c, TotalBlocks(|c|), i, j));
  }

  /** The state after the file was cut. */
  lemma CutDone(bm: Area, q: Inode, s0: seq<Block>, s1: seq<Block>, s: seq<Block>, r: InodeRec, stray: int,
          c: seq<byte>)
    requires q.Stored(bm, s0) && q.Placed(bm, s1) && q.Placed(bm, s)
    requires var r0 := q.Rec(bm, s0); var own := TreeOf(r0.root, s0, DataBlocks(r0.size)).Values;
      && TreeOf(r0.root, s1, DataBlocks(r0.size)).Values == own && SizeChanged(bm, r0, s1, r, s)
      && Spares(bm, own, own, s0, s1, {})
      && Spares(bm, own, TreeOf(r.root, s, DataBlocks(r.size)).Values, s1, s, {stray, q.pos.block as int})
      && r.size <= r0.size && Contents(r0.root, s1, r0.size)[..r.size] == c
    requires r.Ok() && (stray == q.pos.block ==> GetInode(s[q.pos.block], q.pos.slot) == r)
    requires stray != q.pos.block ==> s[q.pos.block] == PutInode(s1[q.pos.block], q.pos.slot, r)
    ensures Rewritten(bm, q, s0, s, stray) && q.Bytes(bm, s) == c
  {
    hide GetInode, PutInode, FileOk, TreeOf, Contents, Spares, DataBlocks;
    var r0 := q.Rec(bm, s0);
    var own := TreeOf(r0.root, s0, DataBlocks(r0.size)).Values;
    q.PlacedStill(bm, s0, s1, own, own);
    if stray != q.pos.block { q.Patched(bm, s1, s, r); }
    assert Contents(r.root, s, r.size)[..r.size] == Contents(r.root, s, r.size) == c;
    SparesTrans(bm, own, own, TreeOf(r.root, s, DataBlocks(r.size)).Values, s0, s1, s, {}, {stray, q.pos.block as int});
  }

  /** The last entry is copied over entry j of block i, unless that is the last slot. */
  method MoveEntry(d: DiskInode, i: nat, j: nat, dev: BlockDevice, bm: Area)
    requires dev.Valid() && d.Intact(bm, dev.View()) && bm.Fits(dev.View()) && d.size < I31
    requires j < SLOTS && (i * SLOTS + j + 1) * ENTRY <= d.size
    modifies dev, dev.disk, dev.cache
    ensures dev.Valid() && d.Intact(bm, dev.View()) && d.Blocks(dev.View()) == old(d.Blocks(dev.View()))
    ensures (i * SLOTS + j + 1) * ENTRY <= |old(d.Bytes(dev.View()))|
    ensures d.Bytes(dev.View())[..d.size - ENTRY] == CutEntry(old(d.Bytes(dev.View())), TotalBlocks(d.size), i, j)
    ensures Spares(bm, d.Blocks(dev.View()).Values, d.Blocks(dev.View()).Values, old(dev.View()), dev.View(), {})
  {
    hide BlockDevice.Valid, FileOk, Contents, DataBlocks, TotalBlocks, Spares, TreeOf, OnlyData, CutEntry, Addressable,
      Zeros, DiskInode.Intact, DiskInode.Blocks, MovedBytes, Returns, Overlaid;
    ghost var s0, c := dev.View(), d.Bytes(dev.View());
    IntactSpares(bm, d, s0);
    var k := i * SLOTS + j;
    EntryAddressable(d.size, d.size - ENTRY);
    EntryAddressable(d.size, k * ENTRY);
    if i as int != TotalBlocks(d.size) - 1 || j != SLOTS - 1 {
      var ret, last := d.ReadData(d.size - ENTRY, Zeros(ENTRY), ENTRY, dev, bm);
      ret := d.WriteData(k * ENTRY, last, ENTRY, dev, bm);
      WroteSpares(bm, d, s0, dev.View());
      EntryMoved(c, last, d.Bytes(dev.View()), k);
    }
    CutIs(c, d.Bytes(dev.View()), TotalBlocks(d.size), i, j);
  }

  lemma IntactSpares(bm: Area, d: DiskInode, s: seq<Block>)
    requires d.Intact(bm, s)
    ensures Spares(bm, d.Blocks(s).Values, d.Blocks(s).Values, s, s, {})
  {
    hide FileOk, TreeOf, Spares;
    SparesSelf(bm, d.Ptrs(), s, DataBlocks(d.size));
  }

  lemma WroteSpares(bm: Area, d: DiskInode, s0: seq<Block>, s: seq<Block>)
    requires d.Intact(bm, s0) && OnlyData(d.Blocks(s0), s0, s)
    ensures Spares(bm, d.Blocks(s0).Values, d.Blocks(s0).Values, s0, s, {})
  {
    hide FileOk, TreeOf, Spares, OnlyData;
    WriteSpares(bm, d.Ptrs(), s0, s, DataBlocks(d.size));
  }

  /** An entry is read or written as a whole. */
  lemma EntryAddressable(size: Word, off: Word)
    requires size < I31 && off + ENTRY <= size
    ensures Addressable(off, ENTRY, size) && Min(ENTRY, size - off) == ENTRY && MovedBytes(off, ENTRY) == ENTRY
  {}

  lemma EntryMoved(c: seq<byte>, last: seq<byte>, c': seq<byte>, k: nat)
    requires |c| >= ENTRY && (k + 1) * ENTRY <= |c|
    requires last == c[|c| - ENTRY..|c| - ENTRY + ENTRY] + Zeros(ENTRY)[ENTRY..]
    requires Overlaid(c, c', k * ENTRY, ENTRY, last)
    ensures c' == c[..k * ENTRY] + c[|c| - ENTRY..] + c[(k + 1) * ENTRY..]
  {
    assert last == c[|c| - ENTRY..];
    assert last[..ENTRY] == last;
  }

  /** The two cases of the bytes after a deletion. */
  lemma CutIs(c: seq<byte>, c': seq<byte>, tot: nat, i: nat, j: nat)
    requires (i * SLOTS + j + 1) * ENTRY <= |c| == |c'|
    requires var k := i * SLOTS + j;
      c' == if i as int == tot - 1 && j == SLOTS - 1 then c
            else c[..k * ENTRY] + c[|c| - ENTRY..] + c[(k + 1) * ENTRY..]
    ensures c'[..|c| - ENTRY] == CutEntry(c, tot, i, j)
  {}

  /** Bytes are added at the end of a file, in the copy d of its inode. The inode on the
      device still describes the file without them. */
  method AddBytes(d: DiskInode, e: seq<byte>, dev: BlockDevice, bm: Area) returns (ok: bool)
    requires dev.Valid() && d.Intact(bm, dev.View()) && bm.Fits(dev.View()) && 0 < |e| && d.size + |e| < I31
    modifies d`size, d`direct, d`indirect1, d`indirect2, dev, dev.disk, dev.cache
    ensures dev.Valid() && (ok <==> old(GrowthFits(bm, dev.View(), d.size, d.size + |e|)))
    ensures ok ==> d.Intact(bm, dev.View()) && d.Rec().Ok() && d.Bytes(dev.View()) == old(d.Bytes(dev.View())) + e
    ensures ok ==> d.Rec() == old(d.Rec()).(size := old(d.size) + |e|, root := d.Ptrs())
    ensures ok ==> old(d.Blocks(dev.View())).Values <= d.Blocks(dev.View()).Values
    ensures old(bm.Fits(dev.View())) && bm.Fits(dev.View())
    ensures ok ==> |Used(bm, dev.View())| ==
                   old(|Used(bm, dev.View())|) + NodeCount(DataBlocks(d.size)) - NodeCount(DataBlocks(old(d.size)))
    ensures Spares(bm, old(d.Blocks(dev.View())).Values,
                   if ok then d.Blocks(dev.View()).Values else old(d.Blocks(dev.View())).Values,
                   old(dev.View()), dev.View(), {})
    ensures FileOk(bm, old(d.Ptrs()), dev.View(), DataBlocks(old(d.size)))
    ensures TreeOf(old(d.Ptrs()), dev.View(), DataBlocks(old(d.size))) == old(d.Blocks(dev.View()))
    ensures Contents(old(d.Ptrs()), dev.View(), old(d.size)) == old(d.Bytes(dev.View()))
  {
    hide BlockDevice.Valid, FileOk, Contents, DataBlocks, Spares, SizeChanged, TreeOf, GrowthFits, OnlyData, ClosedPart,
      Overlaid, MovedBytes, Returns, Addressable, Used, NodeCount, Area.Fits;
    ghost var r0, s0, c, own0 := d.Rec(), dev.View(), d.Bytes(dev.View()), d.Blocks(dev.View()).Values;
    var size := d.size;
    ok := Lengthen(d, size + |e|, dev, bm);
    SparesFits(bm, own0, if ok then d.Blocks(dev.View()).Values else own0, s0, dev.View());
    if !ok { return; }
    ghost var s1 := dev.View();
    UsedCount(bm, r0, s0, d.Rec(), s1, {});
    ChangedOk(bm, r0, s0, d.Rec(), s1);
    EndAddressable(size, |e|);
    var ret := d.WriteData(size, e, |e|, dev, bm);
    ghost var s2 := dev.View();
    BytesAdded(c, d.Bytes(s1), d.Bytes(s2), e);
    DataSpares(bm, d.Ptrs(), s0, s1, s2, DataBlocks(d.size), own0);
    WrittenOld(bm, r0.root, r0.size, d.Ptrs(), d.size, s1, s2);
    PartValues(TreeOf(r0.root, s1, DataBlocks(r0.size)), d.Blocks(s1));
    assert (c + e)[..|c|] == c;
  }

  lemma PartValues(m0: map<Node, int>, m: map<Node, int>)
    requires ClosedPart(m0, m)
    ensures m0.Values <= m.Values
  {}

  lemma EndAddressable(size: Word, n: nat)
    requires 0 < n && size + n < I31
    ensures Addressable(size, n, size + n) && Min(n, size + n - size) == n && MovedBytes(size, n) == n
  {}

  lemma BytesAdded(c: seq<byte>, c1: seq<byte>, c2: seq<byte>, e: seq<byte>)
    requires |c1| == |c| + |e| && c1[..|c|] == c && Overlaid(c1, c2, |c|, |e|, e)
    ensures c2 == c + e
  {}

  /** What create and link do to the directory file: it grows by one entry, which counts
      if what it keeps of the name is new. */
  method AppendName(q: Inode, name: seq<byte>, id: Word, dev: BlockDevice, bm: Area) returns (ok: bool)
    requires dev.Valid() && bm.Fits(dev.View()) && IsDir(bm, q, dev.View()) && IsName(name)
    requires SizeOn(bm, q, dev.View()) + ENTRY < I31
    modifies dev, dev.disk, dev.cache
    ensures dev.Valid() && (ok <==> old(EntryFits(bm, q, dev.View())))
    ensures Rewritten(bm, q, old(dev.View()), dev.View(), -1)
    ensures !ok ==> Renames(bm, q, old(dev.View()), dev.View(), old(NamesOn(bm, q, dev.View())), -1)
    ensures ok ==>
      var kept, before := if |name| <= 251 then name else name[..251], old(NamesOn(bm, q, dev.View()));
      if kept in before then !IsDir(bm, q, dev.View()) && NamesOn(bm, q, dev.View()) == before
      else Renames(bm, q, old(dev.View()), dev.View(), before[kept := id], -1)
  {
    hide BlockDevice.Valid, FileOk, GetInode, Bindings, Entries, Contents, DirBytes, DataBlocks, Spares, TreeOf, Unique,
      Short, PutInode, GrowthFits, Pack, Trunc, Rewritten, Renames;
    ghost var s0 := dev.View();
    var d := q.ReadInode(dev, bm);
    ghost var c, own0 := d.Bytes(s0), d.Blocks(s0).Values;
    AppendIs(c, name, id);
    ok := AddBytes(d, Pack(name, id), dev, bm);
    ghost var s1 := dev.View();
    if !ok {
      KeptAsIs(bm, q, s0, s1, own0);
      RenamesFrom(bm, q, s0, s1, -1);
      return;
    }
    ghost var own := d.Blocks(s1).Values;
    q.PlacedStill(bm, s0, s1, own0, own);
    WriteBack(q, d, s0, own0, dev, bm);
    if DirBytes(c + Pack(name, id)) { RenamesFrom(bm, q, s0, dev.View(), -1); }
  }

  /** A file whose inode was not written, and still describes what it did. */
  lemma KeptAsIs(bm: Area, q: Inode, s0: seq<Block>, s: seq<Block>, own1: set<int>)
    requires q.Stored(bm, s0) && Spares(bm, q.Map(bm, s0).Values, own1, s0, s, {}) && q.Map(bm, s0).Values <= own1
    requires var r0 := q.Rec(bm, s0);
      && FileOk(bm, r0.root, s, DataBlocks(r0.size)) && TreeOf(r0.root, s, DataBlocks(r0.size)) == q.Map(bm, s0)
      && Contents(r0.root, s, r0.size) == q.Bytes(bm, s0)
    ensures Rewritten(bm, q, s0, s, -1) && q.Bytes(bm, s) == q.Bytes(bm, s0) && q.Rec(bm, s) == q.Rec(bm, s0)
    ensures q.Placed(bm, s) && q.Map(bm, s) == q.Map(bm, s0)
  {
    hide FileOk, TreeOf, GetInode, Contents, DataBlocks, Spares;
    var own0 := q.Map(bm, s0).Values;
    SparesLost(bm, own0, own1, s0, s, {});
    q.PlacedStill(bm, s0, s, own0, own1);
    SparesMore(bm, own0, own0, s0, s, {}, {-1, q.pos.block as int});
  }

  /** The inode is written at last, after its file has changed. */
  method WriteBack(q: Inode, d: DiskInode, ghost s0: seq<Block>, ghost own0: set<int>, dev: BlockDevice, ghost bm: Area)
    requires dev.Valid() && q.Stored(bm, s0) && q.Placed(bm, dev.View()) && d.Intact(bm, dev.View()) && d.Rec().Ok()
    requires dev.View()[q.pos.block] == s0[q.pos.block] && own0 == q.Map(bm, s0).Values
    requires Spares(bm, own0, d.Blocks(dev.View()).Values, s0, dev.View(), {})
    requires d.Rec() == q.Rec(bm, s0).(size := d.size, root := d.Ptrs())
    modifies dev, dev.disk, dev.cache
    ensures dev.Valid() && Rewritten(bm, q, s0, dev.View(), -1)
    ensures q.Placed(bm, dev.View()) && q.Rec(bm, dev.View()) == d.Rec()
    ensures q.Bytes(bm, dev.View()) == d.Bytes(old(dev.View()))
  {
    hide BlockDevice.Valid, FileOk, GetInode, Contents, DataBlocks, Spares, TreeOf, PutInode;
    ghost var s1 := dev.View();
    ghost var own := d.Blocks(s1).Values;
    FileFacts(bm, d.Ptrs(), s1, DataBlocks(d.size));
    q.StoreFile(bm, s1, d.Rec());
    d.WriteInode(q.pos, dev);
    q.SparesPatched(bm, own0, own, s0, s1, dev.View()[q.pos.block]);
    SparesMore(bm, own0, own, s0, dev.View(), {q.pos.block as int}, {-1, q.pos.block as int});
  }

  /** What link does to the directory file when the name is there and is replaced. */
  method RebindName(q: Inode, name: seq<byte>, id: Word, dev: BlockDevice, bm: Area) returns (ok: bool)
    requires dev.Valid() && bm.Fits(dev.View()) && IsDir(bm, q, dev.View()) && IsName(name)
    modifies dev, dev.disk, dev.cache
    ensures dev.Valid() && (ok <==> name in old(NamesOn(bm, q, dev.View())))
    ensures !ok ==> dev.View() == old(dev.View())
    ensures ok ==> Renames(bm, q, old(dev.View()), dev.View(), old(NamesOn(bm, q, dev.View()))[name := id], -1)
  {
    hide BlockDevice.Valid, FileOk, GetInode, Bindings, Entries, Contents, DirBytes, DataBlocks, TotalBlocks, TreeOf,
      Unique, Short, PutInode, Renames, Rewritten, Unpack, SetEntry, Spares, Pack, Searches;
    ghost var s0 := dev.View();
    var d := q.ReadInode(dev, bm);
    ghost var c := d.Bytes(s0);
    var hit, _ := ScanOnDisk(d, name, dev, bm);
    if !hit.Hit? { return false; }
    ShortName(c, name);
    var k := hit.i * SLOTS + hit.j;
    EntryRange(c, k);
    SetEntryIs(c, k, name, id);
    Overwrite(q, d, k, Pack(hit.entry.name, id), dev, bm);
    RenamesFrom(bm, q, s0, dev.View(), -1);
    ok := true;
  }

  /** An entry of the directory file is overwritten, and the inode written back. */
  method Overwrite(q: Inode, d: DiskInode, k: nat, e: seq<byte>, dev: BlockDevice, bm: Area)
    requires dev.Valid() && bm.Fits(dev.View()) && q.Stored(bm, dev.View()) && d.Rec() == q.Rec(bm, dev.View())
    requires d.Rec().Ok()
    requires d.size < I31 && |e| == ENTRY && (k + 1) * ENTRY <= |d.Bytes(dev.View())|
    modifies dev, dev.disk, dev.cache
    ensures dev.Valid() && (k + 1) * ENTRY <= |old(d.Bytes(dev.View()))|
    ensures Rewritten(bm, q, old(dev.View()), dev.View(), -1)
    ensures q.Placed(bm, dev.View()) && q.Bytes(bm, dev.View()) == SetEntry(old(d.Bytes(dev.View())), k, e)
  {
    hide BlockDevice.Valid, FileOk, GetInode, Contents, DataBlocks, TreeOf, PutInode, Spares, OnlyData, Addressable,
      Rewritten, MovedBytes, Returns;
    ghost var s0, own := dev.View(), d.Blocks(dev.View()).Values;
    EntryAddressable(d.size, k * ENTRY);
    var ret := d.WriteData(k * ENTRY, e, ENTRY, dev, bm);
    ghost var s1 := dev.View();
    assert e[..ENTRY] == e;
    WriteSpares(bm, d.Ptrs(), s0, s1, DataBlocks(d.size));
    q.PlacedStill(bm, s0, s1, own, own);
    WriteBack(q, d, s0, own, dev, bm);
  }

  lemma EntryRange(c: seq<byte>, k: nat)
    requires DirBytes(c) && k < |Entries(c)|
    ensures (k + 1) * ENTRY <= |c| < I31
  {}
}
