/** Where the regions of the disk are: super block, inode bitmap, inode area, data
    bitmap, data area. */
module Layout {
  import opened Blocks
  import opened BitmapModel
  import opened InodeCodec

  const INODE_SIZE: nat := 4 * INODE_WORDS

  datatype Super = Super(total: Word, inodeBitmap: Word, inodeArea: Word, dataBitmap: Word, dataArea: Word) {

    function InodeIds(): Area { Area(1, inodeBitmap, AreaStart()) }

    function AreaStart(): nat { 1 + inodeBitmap }

    function DataBitmapStart(): nat { AreaStart() + inodeArea }

    function DataStart(): nat { DataBitmapStart() + dataBitmap }

    function DataIds(): Area { Area(DataBitmapStart(), dataBitmap, DataStart()) }

    function End(): nat { DataStart() + dataArea }
  }

  /** The sizes that create writes into the super block, in 32-bit arithmetic. */
  function Create(total: Word, inodeBitmap: Word): Super {
    var inodeArea := inodeBitmap * 8 * BLOCK_SIZE / INODES_IN_BLOCK % U32;
    var remaining := (total - inodeBitmap - inodeArea) % U32;
    var dataBitmap := remaining / (1 + 8 * BLOCK_SIZE);
    Super(total, inodeBitmap, inodeArea, dataBitmap, dataBitmap * 8 * BLOCK_SIZE % U32)
  }

  /** The regions end within the disk unless the blocks left over divide evenly, for
      then no block is left for the super block. */
  lemma RegionsFit(total: Word, inodeBitmap: Word)
    requires 0 < inodeBitmap && 1025 * inodeBitmap <= total
    ensures Create(total, inodeBitmap).End() <= total <==> (total - 1025 * inodeBitmap) % 32769 != 0
    ensures Create(total, inodeBitmap).End() <= total + 1
  {
    Sizes(total, inodeBitmap);
  }

  /** Where each region begins, and the ids that each bitmap manages. */
  lemma Sizes(total: Word, inodeBitmap: Word)
    requires 0 < inodeBitmap && 1025 * inodeBitmap <= total
    ensures var s := Create(total, inodeBitmap);
      && s.inodeArea == 1024 * inodeBitmap && s.dataArea == BLOCK_BITS * s.dataBitmap
      && s.dataBitmap == (total - 1025 * inodeBitmap) / 32769
    ensures var s, at := Create(total, inodeBitmap), 1 + 1025 * inodeBitmap;
      && s.AreaStart() == 1 + inodeBitmap && s.DataBitmapStart() == at && s.DataStart() == at + s.dataBitmap
      && s.End() == at + 32769 * s.dataBitmap
      && s.InodeIds() == Area(1, inodeBitmap, 1 + inodeBitmap)
      && s.DataIds() == Area(at, s.dataBitmap, at + s.dataBitmap)
  {
    assert inodeBitmap * 8 * BLOCK_SIZE / INODES_IN_BLOCK == 1024 * inodeBitmap;
    var left := total - 1025 * inodeBitmap;
    assert 0 <= left < U32;
    assert left / 32769 * 8 * BLOCK_SIZE <= left;
  }

  /** Each data id is a block of the data area and each block of the area has one, and
      it is no super block, bitmap or inode block. */
  lemma DataIdsAreBlocks(total: Word, inodeBitmap: Word, b: int)
    requires 0 < inodeBitmap && 1025 * inodeBitmap <= total
    ensures var s := Create(total, inodeBitmap); s.DataIds().Manages(b) <==> s.DataStart() <= b < s.End()
    ensures var s := Create(total, inodeBitmap); s.DataIds().Manages(b) ==>
      b != 0 && !s.InodeIds().IsBitmapBlock(b) && !s.DataIds().IsBitmapBlock(b) &&
        !(s.AreaStart() <= b < s.DataBitmapStart())
  {
    Sizes(total, inodeBitmap);
  }

  /** Position of an inode as the code keeps it, and back. */
  datatype DiskPos = DiskPos(block: Word, offset: Word)

  function GetDiskInodePos(start: Word, id: Word): DiskPos {
    DiskPos((start + id / INODES_IN_BLOCK) % U32, id % INODES_IN_BLOCK * INODE_SIZE)
  }

  function GetDiskInodeId(start: Word, pos: DiskPos): Word {
    ((pos.block - start) % U32 * INODES_IN_BLOCK + pos.offset / INODE_SIZE) % U32
  }

  /** An inode has 128 bytes of the block that its id says. The id comes back from its
      position, whatever wraps around in between; so no two inodes share a place. */
  lemma PosId(start: Word, id: Word)
    ensures var pos := GetDiskInodePos(start, id);
      pos.offset + 128 <= 4096 && pos.offset == 128 * (id % 32) && pos.block == (start + id / 32) % 0x1_0000_0000
    ensures GetDiskInodeId(start, GetDiskInodePos(start, id)) == id
  {
    var k: int := id / INODES_IN_BLOCK;
    Unwrap(start, k);
    assert id % INODES_IN_BLOCK * INODE_SIZE / INODE_SIZE == id % INODES_IN_BLOCK;
    assert k * INODES_IN_BLOCK + id % INODES_IN_BLOCK == id;
  }

  lemma Unwrap(start: Word, k: int)
    requires 0 <= k < U32
    ensures ((start + k) % U32 - start) % U32 == k
  {}

  lemma PosDistinct(start: Word, a: Word, b: Word)
    ensures GetDiskInodePos(start, a) == GetDiskInodePos(start, b) <==> a == b
  {
    PosId(start, a);
    PosId(start, b);
  }

  /** A place in a block comes back from its id exactly when the id does not wrap. */
  lemma IdPos(start: Word, pos: DiskPos)
    requires pos.offset % INODE_SIZE == 0 && pos.offset < BLOCK_SIZE
    ensures GetDiskInodePos(start, GetDiskInodeId(start, pos)) == pos <==>
            (pos.block - start) % U32 * INODES_IN_BLOCK < U32
  {
    var d: nat, j: nat := (pos.block - start) % U32, pos.offset / INODE_SIZE;
    var e := SplitId(d, j);
    Shifted(start, d, e);
    Rewrap(start, pos.block);
    assert j * INODE_SIZE == pos.offset;
  }

  /** The block number and the slot of an id made from d and j. */
  lemma SplitId(d: nat, j: nat) returns (e: nat)
    requires d < U32 && j < INODES_IN_BLOCK
    ensures (d * INODES_IN_BLOCK + j) % U32 / INODES_IN_BLOCK == e
    ensures (d * INODES_IN_BLOCK + j) % U32 % INODES_IN_BLOCK == j
    ensures e < U32 && (e == d <==> d * INODES_IN_BLOCK < U32)
  {
    var q := d / 0x800_0000;
    e := d % 0x800_0000;
    assert d * INODES_IN_BLOCK + j == q * U32 + (e * INODES_IN_BLOCK + j);
  }

  lemma Rewrap(start: Word, block: Word)
    ensures (start + (block - start) % U32) % U32 == block
  {
    Unwrap(start, (block - start) % U32);
    if block < start {
      assert (block - start) % U32 == block - start + U32;
    }
  }

  lemma Shifted(start: Word, d: nat, e: nat)
    requires d < U32 && e < U32
    ensures (start + d) % U32 == (start + e) % U32 <==> d == e
  {
    Unwrap(start, d);
    Unwrap(start, e);
  }

  /** Inode ids start at the inode area, not at 0. The inode of an id lies in the inode
      area exactly when the id is below the number of inodes there; for the last
      inodeBitmap + 1 ids it is beyond, in the data bitmap if that is big enough. */
  lemma InodePlace(total: Word, inodeBitmap: Word, id: Word)
    requires 0 < inodeBitmap && 1025 * inodeBitmap <= total && Create(total, inodeBitmap).InodeIds().Manages(id)
    ensures var s := Create(total, inodeBitmap); var b := GetDiskInodePos(s.AreaStart(), id).block;
      && s.AreaStart() <= b
      && (b < s.DataBitmapStart() <==> id < BLOCK_BITS * inodeBitmap)
      && (id >= BLOCK_BITS * inodeBitmap ==> s.DataIds().IsBitmapBlock(b) || b >= s.DataStart())
  {
    Sizes(total, inodeBitmap);
    assert id < 1 + inodeBitmap + BLOCK_BITS * inodeBitmap;
    assert id / INODES_IN_BLOCK <= 1025 * inodeBitmap;
  }

  /** The last inode ids of the default layout are kept in the data bitmap. */
  lemma LastInodeInBitmap()
    ensures var s := Create(4194304, 1);
      s.InodeIds().Manages(32769) && s.DataIds().IsBitmapBlock(GetDiskInodePos(s.AreaStart(), 32769).block)
    ensures Create(4194304, 1).End() <= 4194304
  {
    Sizes(4194304, 1);
    RegionsFit(4194304, 1);
  }
}
