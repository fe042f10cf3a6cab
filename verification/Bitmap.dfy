/** The allocation bitmap: an area of blocks whose 64-bit words record, bit by bit,
    which ids are in use. The value functions come first, then the operations on
    the device. */
module BitmapModel {
  import opened Blocks
  import opened Bits

  const BLOCK_BITS: nat := 32768         // ids managed by one bitmap block

  /** Where the bitmap starts, how many blocks it has, and the first id it manages. */
  datatype Area = Area(start: nat, num: nat, offset: nat) {

    ghost function Limit(): nat {
      offset + num * BLOCK_BITS
    }

    ghost predicate Manages(id: int) {
      offset <= id < Limit()
    }

    ghost predicate IsBitmapBlock(b: int) {
      start <= b < start + num
    }

    /** The bitmap lies on the device and ids fit below the failure value. */
    ghost predicate Fits(view: seq<Block>) {
      start + num <= |view| && Limit() < FAIL
    }
  }

  ghost predicate SlotUsed(b: Block, k: nat)
    requires k < BLOCK_BITS
  {
    Bit(GetLong(b, k / 64), k % 64)
  }

  ghost function SetSlot(b: Block, k: nat): Block
    requires k < BLOCK_BITS
  {
    SetBitBound64(GetLong(b, k / 64), k % 64);
    SetLong(b, k / 64, SetBit(GetLong(b, k / 64), k % 64))
  }

  ghost function ClearSlot(b: Block, k: nat): Block
    requires k < BLOCK_BITS
  {
    SetBitBound64(GetLong(b, k / 64), k % 64);
    SetLong(b, k / 64, ClearBit(GetLong(b, k / 64), k % 64))
  }

  lemma SetBitBound64(w: Long, k: nat)
    requires k < 64
    ensures SetBit(w, k) < U64 && ClearBit(w, k) < U64
  {
    Two64();
    SetBitBound(w, k, 64);
  }

  lemma SlotOps(b: Block, k: nat)
    requires k < BLOCK_BITS
    ensures forall j: nat | j < BLOCK_BITS :: SlotUsed(SetSlot(b, k), j) == (j == k || SlotUsed(b, j))
    ensures forall j: nat | j < BLOCK_BITS :: SlotUsed(ClearSlot(b, k), j) == (j != k && SlotUsed(b, j))
  {
    hide GetLong, SetLong, Bit, SetBit, ClearBit;
    var w := GetLong(b, k / 64);
    SetBitBound64(w, k % 64);
    forall j: nat | j < BLOCK_BITS
      ensures SlotUsed(SetSlot(b, k), j) == (j == k || SlotUsed(b, j))
      ensures SlotUsed(ClearSlot(b, k), j) == (j != k && SlotUsed(b, j))
    {
      SetLongGet(b, k / 64, SetBit(w, k % 64), j / 64);
      SetLongGet(b, k / 64, ClearBit(w, k % 64), j / 64);
      SetBitGet(w, k % 64, j % 64);
      ClearBitGet(w, k % 64, j % 64);
    }
  }

  lemma SlotBack(b: Block, k: nat)
    requires k < BLOCK_BITS && !SlotUsed(b, k)
    ensures ClearSlot(SetSlot(b, k), k) == b
  {
    hide GetLong, SetLong, Bit, SetBit, ClearBit;
    var w := GetLong(b, k / 64);
    SetBitBound64(w, k % 64);
    SetLongGet(b, k / 64, SetBit(w, k % 64), k / 64);
    SetThenClear(w, k % 64);
    SetLongBack(b, k / 64, SetBit(w, k % 64));
  }

  ghost predicate IsUsed(bm: Area, view: seq<Block>, id: int)
    requires bm.Fits(view)
  {
    bm.Manages(id) &&
    SlotUsed(view[bm.start + (id - bm.offset) / BLOCK_BITS], (id - bm.offset) % BLOCK_BITS)
  }

  /** The set of ids in use. */
  ghost function Used(bm: Area, view: seq<Block>): (s: set<int>)
    requires bm.Fits(view)
    ensures forall id :: id in s <==> IsUsed(bm, view, id)
  {
    set id | bm.offset <= id < bm.Limit() && IsUsed(bm, view, id)
  }

  /** The device contents after one id is marked as used, or as free. */
  ghost function Marked(bm: Area, view: seq<Block>, id: int): seq<Block>
    requires bm.Fits(view) && bm.Manages(id)
  {
    var b := bm.start + (id - bm.offset) / BLOCK_BITS;
    view[b := SetSlot(view[b], (id - bm.offset) % BLOCK_BITS)]
  }

  ghost function Unmarked(bm: Area, view: seq<Block>, id: int): seq<Block>
    requires bm.Fits(view) && bm.Manages(id)
  {
    var b := bm.start + (id - bm.offset) / BLOCK_BITS;
    view[b := ClearSlot(view[b], (id - bm.offset) % BLOCK_BITS)]
  }

  /** Outside the bitmap area nothing differs. */
  ghost predicate SameOutside(bm: Area, a: seq<Block>, b: seq<Block>) {
    |a| == |b| && forall i | 0 <= i < |a| && !bm.IsBitmapBlock(i) :: a[i] == b[i]
  }

  /** Marking an id adds it and only it to the set, and touches only the bitmap. */
  lemma MarkedUsed(bm: Area, view: seq<Block>, id: int)
    requires bm.Fits(view) && bm.Manages(id)
    ensures Used(bm, Marked(bm, view, id)) == Used(bm, view) + {id}
    ensures SameOutside(bm, view, Marked(bm, view, id)) && |Marked(bm, view, id)| == |view|
    ensures forall b | 0 <= b < |view| && !(bm.start <= b < bm.start + bm.num) :: Marked(bm, view, id)[b] == view[b]
  {
    hide SlotUsed, SetSlot;
    var view' := Marked(bm, view, id);
    SlotOps(view[bm.start + (id - bm.offset) / BLOCK_BITS], (id - bm.offset) % BLOCK_BITS);
    forall x
      ensures x in Used(bm, view') <==> x in Used(bm, view) + {id}
    {
      assert IsUsed(bm, view', x) <==> IsUsed(bm, view, x) || x == id;
    }
  }

  lemma UnmarkedUsed(bm: Area, view: seq<Block>, id: int)
    requires bm.Fits(view) && bm.Manages(id)
    ensures Used(bm, Unmarked(bm, view, id)) == Used(bm, view) - {id}
    ensures SameOutside(bm, view, Unmarked(bm, view, id)) && |Unmarked(bm, view, id)| == |view|
    ensures forall b | 0 <= b < |view| && !(bm.start <= b < bm.start + bm.num) :: Unmarked(bm, view, id)[b] == view[b]
  {
    hide SlotUsed, ClearSlot;
    var view' := Unmarked(bm, view, id);
    SlotOps(view[bm.start + (id - bm.offset) / BLOCK_BITS], (id - bm.offset) % BLOCK_BITS);
    forall x
      ensures x in Used(bm, view') <==> x in Used(bm, view) - {id}
    {
      assert IsUsed(bm, view', x) <==> IsUsed(bm, view, x) && x != id;
    }
  }

  /** Freeing what was just allocated restores every byte of the device. */
  lemma MarkUnmark(bm: Area, view: seq<Block>, id: int)
    requires bm.Fits(view) && bm.Manages(id) && id !in Used(bm, view)
    ensures Unmarked(bm, Marked(bm, view, id), id) == view
  {
    hide SlotUsed, SetSlot, ClearSlot;
    assert !IsUsed(bm, view, id);
    SlotBack(view[bm.start + (id - bm.offset) / BLOCK_BITS], (id - bm.offset) % BLOCK_BITS);
  }

  /** Writes elsewhere do not change the set. */
  lemma SameBitmap(bm: Area, a: seq<Block>, b: seq<Block>)
    requires bm.Fits(a) && bm.Fits(b)
    requires forall i | bm.IsBitmapBlock(i) :: a[i] == b[i]
    ensures Used(bm, a) == Used(bm, b)
  {}

  /** All ids below offset + n are in use. */
  ghost predicate FullTo(bm: Area, view: seq<Block>, n: int)
    requires bm.Fits(view)
  {
    forall id | bm.offset <= id < bm.offset + n :: IsUsed(bm, view, id)
  }

  lemma Full(bm: Area, view: seq<Block>)
    requires bm.Fits(view) && FullTo(bm, view, bm.num * BLOCK_BITS)
    ensures forall id | bm.Manages(id) :: id in Used(bm, view)
  {}

  /** Bit k of a 64-bit word is bit k % 8 of its byte k / 8. */
  lemma LongBit(b: Block, j: nat, k: nat)
    requires j < LONGS && k < 64
    ensures 8 * j + k / 8 < 4096 && (Bit(GetLong(b, j), k) <==> Bit(b[8 * j + k / 8], k % 8))
  {
    hide Bit, GetWord;
    var lo, hi := GetWord(b, 2 * j), GetWord(b, 2 * j + 1);
    Two32();
    BitJoin(lo, 32, hi, k);
    WordBit(b, if k < 32 then 2 * j else 2 * j + 1, k % 32);
  }

  lemma WordBit(b: Block, i: nat, k: nat)
    requires i < WORDS && k < 32
    ensures 4 * i + k / 8 < 4096 && (Bit(GetWord(b, i), k) <==> Bit(b[4 * i + k / 8], k % 8))
  {
    hide Bit;
    var b0: nat, b1: nat, b2: nat, b3: nat := b[4 * i], b[4 * i + 1], b[4 * i + 2], b[4 * i + 3];
    Two32();
    var w2 := b2 + 0x100 * b3;
    var w1 := b1 + 0x100 * w2;
    assert GetWord(b, i) == b0 + 0x100 * w1;
    BitJoin(b0, 8, w1, k);
    if k >= 8 { BitJoin(b1, 8, w2, k - 8); }
    if k >= 16 { BitJoin(b2, 8, b3, k - 16); }
  }

  lemma Two32()
    ensures Two(8) == 0x100 && Two(32) == 0x1_0000_0000
  {
    hide Two;
    TwoNone();
    TwoNext(0);
    TwoNext(1);
    TwoTwice(2);
    TwoTwice(4);
    TwoTwice(8);
    TwoTwice(16);
  }

  lemma SlotByte(b: Block, x: nat)
    requires x < BLOCK_BITS
    ensures x / 8 < 4096 && Two(x % 8) > 0 && (SlotUsed(b, x) <==> b[x / 8] as int / Two(x % 8) % 2 == 1)
  {
    hide GetLong, Bit;
    LongBit(b, x / 64, x % 64);
    assert 8 * (x / 64) + x % 64 / 8 == x / 8 && x % 64 % 8 == x % 8;
    BitIs(b[x / 8], x % 8);
  }

  lemma PowersOfTwo()
    ensures Two(0) == 1 && Two(1) == 2 && Two(2) == 4 && Two(3) == 8
    ensures Two(4) == 16 && Two(5) == 32 && Two(6) == 64 && Two(7) == 128
  {}

  /** The bitmap as bytes: an id is in use exactly if, counting from the first id and with
      the low bit of each byte first, its bit is set. */
  lemma UsedByte(bm: Area, view: seq<Block>, id: int)
    requires bm.Fits(view)
    ensures id in Used(bm, view) <==>
      var k := id - bm.offset;
      && 0 <= k < 32768 * bm.num && bm.start + k / 32768 < |view| && Two(k % 32768 % 8) > 0
      && view[bm.start + k / 32768][k % 32768 / 8] as int / Two(k % 32768 % 8) % 2 == 1
  {
    hide SlotUsed;
    var k := id - bm.offset;
    if 0 <= k < 32768 * bm.num {
      SlotByte(view[bm.start + k / 32768], k % 32768);
    }
  }

  /** What one word of the bitmap says about the 64 ids it records. */
  lemma WordSays(bm: Area, view: seq<Block>, i: nat, j: nat)
    requires bm.Fits(view) && i < bm.num && j < LONGS && FullTo(bm, view, i * BLOCK_BITS + j * 64)
    ensures var k, first := LeadingZero(GetLong(view[bm.start + i], j)), bm.offset + i * BLOCK_BITS + j * 64;
      if k == -1 then FullTo(bm, view, i * BLOCK_BITS + (j + 1) * 64)
      else
        && 0 <= k < 64 && bm.Manages(first + k) && !IsUsed(bm, view, first + k)
        && FullTo(bm, view, i * BLOCK_BITS + j * 64 + k)
  {
    hide GetLong, LeadingZero, Bit;
    var w, first := GetLong(view[bm.start + i], j), bm.offset + i * BLOCK_BITS + j * 64;
    var k := LeadingZero(w);
    LeadingZeroSpec(w);
    assert first + 64 <= bm.Limit() by { InsideBlock(bm, i, j); }
    forall m | 0 <= m < 64
      ensures bm.Manages(first + m) && IsUsed(bm, view, first + m) == Bit(w, m)
    {
      var x := first + m - bm.offset;
      assert x / BLOCK_BITS == i && x % BLOCK_BITS == j * 64 + m;
      assert (j * 64 + m) / 64 == j && (j * 64 + m) % 64 == m;
    }
    forall id | bm.offset <= id < first + (if k == -1 then 64 else k)
      ensures IsUsed(bm, view, id)
    {
      if id >= first { assert IsUsed(bm, view, first + (id - first)) == Bit(w, id - first); }
    }
  }

  lemma InsideBlock(bm: Area, i: nat, j: nat)
    requires i < bm.num && j < LONGS
    ensures bm.offset + i * BLOCK_BITS + j * 64 + 64 <= bm.Limit()
  {}
}

module Bitmaps {
  import opened Blocks
  import opened Bits
  import opened BitmapModel
  import opened CacheModel
  import opened Device

  /** Finds the least id that is not in use and marks it; FAIL when all are in use. */
  method Alloc(bm: Area, dev: BlockDevice) returns (r: Word)
    requires dev.Valid() && bm.Fits(dev.View())
    modifies dev, dev.disk, dev.cache
    ensures dev.Valid() && |dev.View()| == old(|dev.View()|) && bm.Fits(dev.View())
    ensures r == 0xFFFF_FFFF <==> forall id | bm.Manages(id) :: id in old(Used(bm, dev.View()))
    ensures r == FAIL ==> dev.View() == old(dev.View()) && dev.history == old(dev.history)
    ensures r != FAIL ==> bm.Manages(r) && r !in old(Used(bm, dev.View()))
    ensures r != FAIL ==> forall id | bm.offset <= id < r :: id in old(Used(bm, dev.View()))
    ensures r != FAIL ==> dev.View() == Marked(bm, old(dev.View()), r) && dev.history == old(dev.history) + [dev.View()]
  {
    hide BlockDevice.Valid, GetLong, SetLong, LeadingZero, Bit, SetBit, IsUsed, SlotUsed;
    ghost var view := dev.View();
    var i := 0;
    while i < bm.num
      invariant 0 <= i <= bm.num
      invariant dev.Valid() && dev.View() == view && dev.history == old(dev.history)
      invariant FullTo(bm, view, i * BLOCK_BITS)
    {
      var buf := dev.Read(bm.start + i);
      var j := 0;
      while j < LONGS
        invariant 0 <= j <= LONGS
        invariant dev.Valid() && dev.View() == view && dev.history == old(dev.history)
        invariant FullTo(bm, view, i * BLOCK_BITS + j * 64)
      {
        WordSays(bm, view, i, j);
        var k := LeadingZero(GetLong(buf, j));
        if k != -1 {
          r := i * BLOCK_BITS + j * 64 + k + bm.offset;
          SetBitBound64(GetLong(buf, j), k);
          buf := SetLong(buf, j, SetBit(GetLong(buf, j), k));
          dev.Write(bm.start + i, buf);
          assert (r - bm.offset) / BLOCK_BITS == i && (r - bm.offset) % BLOCK_BITS == j * 64 + k;
          assert (j * 64 + k) / 64 == j && (j * 64 + k) % 64 == k;
          return;
        }
        j := j + 1;
      }
      i := i + 1;
    }
    Full(bm, view);
    r := FAIL;
  }

  /** Marks an id as free. */
  method Free(bm: Area, id: nat, dev: BlockDevice)
    requires dev.Valid() && bm.Fits(dev.View()) && bm.Manages(id)
    modifies dev, dev.disk, dev.cache
    ensures dev.Valid() && dev.View() == Unmarked(bm, old(dev.View()), id)
    ensures dev.history == old(dev.history) + [dev.View()]
  {
    hide BlockDevice.Valid, GetLong, SetLong, ClearBit;
    var x := id - bm.offset;
    var i, slot := x / BLOCK_BITS, x % BLOCK_BITS;
    var buf := dev.Read(bm.start + i);
    SetBitBound64(GetLong(buf, slot / 64), slot % 64);
    buf := SetLong(buf, slot / 64, ClearBit(GetLong(buf, slot / 64), slot % 64));
    dev.Write(bm.start + i, buf);
  }
}
