/** The block device: a disk file behind a write-back LRU cache. */
module Device {
  import opened Blocks
  import opened LruList
  import opened CacheModel
  import opened Wrappers

  /** The file behind the device: an array of blocks. */
  class Disk {
    var blocks: seq<Block>

    constructor (n: nat)
      ensures |blocks| == n
    {
      blocks := seq(n, _ => seq(4096, _ => 0));
    }

    method WriteToDisk(id: nat, b: Block)
      requires id < |blocks|
      modifies this
      ensures blocks == old(blocks)[id := b]
    {
      blocks := blocks[id := b];
    }

    method ReadFromDisk(id: nat) returns (b: Block)
      requires id < |blocks|
      ensures b == blocks[id]
    {
      b := blocks[id];
    }
  }

  class LRUCacheManager {
    const dev: Disk
    const size: nat
    /** Whether a victim is unlinked before its links are cleared. The source clears
        first (false); unlinking first (true) is the order its list needs. */
    const unlinkFirst: bool

    var freeFirst: int
    var lruFirst: int
    var lruLast: int
    var hashtable: map<int, int>
    var data: seq<Block>
    var dirty: seq<bool>
    var ids: seq<int>
    var prev: seq<int>
    var next: seq<int>

    ghost var view: seq<Block>    // what a client sees
    ghost var uses: seq<int>      // every id used, oldest first
    ghost var intact: bool        // the links form lists
    ghost var order: seq<int>     // if so: the slots in list order
    ghost var free: seq<int>      // and the free slots

    ghost function Lru(): Links
      reads this
    {
      Links(prev, next, lruFirst, lruLast)
    }

    ghost function Now(): State
      reads this
    {
      State(freeFirst, Lru(), hashtable, data, dirty, ids, view, uses, intact, order, free)
    }

    ghost function Cfg(): Config {
      Config(size, unlinkFirst)
    }

    /** The block is held and will be written back. */
    ghost predicate Dirty(id: int)
      reads this
    {
      id in hashtable && 0 <= hashtable[id] < |dirty| && dirty[hashtable[id]]
    }

    ghost predicate Valid()
      reads this, dev
    {
      Inv(Now(), Cfg(), dev.blocks, -1)
    }

    constructor (cacheSize: nat, dev: Disk, unlinkFirst: bool)
      requires cacheSize >= BLOCK_SIZE
      ensures Valid() && this.dev == dev && this.unlinkFirst == unlinkFirst
      ensures size == cacheSize / BLOCK_SIZE && intact
      ensures view == dev.blocks && uses == []
    {
      var n := cacheSize / BLOCK_SIZE;
      this.dev := dev;
      this.unlinkFirst := unlinkFirst;
      size := n;
      freeFirst, lruFirst, lruLast := 0, -1, -1;
      hashtable := map[];
      data := seq(n, _ => seq(4096, _ => 0));
      dirty := seq(n, _ => false);
      ids := seq(n, _ => 0);
      prev := seq(n, i => if i == 0 then -1 else i - 1);
      next := seq(n, i => if i == n - 1 then -1 else i + 1);
      view, uses, intact := dev.blocks, [], true;
      order, free := [], seq(n, i => i);
      new;
      forall s | 0 <= s < size
        ensures s in free
      {
        assert free[s] == s;
      }
    }

    method LRUAdd(slot: int)
      requires InRange(Lru(), size) && |dirty| == |ids| == size && 0 <= slot < size
      modifies this`prev, this`next, this`lruFirst, this`lruLast
      ensures Lru() == Pushed(old(Lru()), size, slot)
    {
      next := next[slot := lruFirst];
      prev := prev[slot := -1];
      if lruFirst != -1 {
        prev := prev[lruFirst := slot];
      }
      lruFirst := slot;
      if lruLast == -1 {
        lruLast := slot;
      }
    }

    method LRURemove(slot: int)
      requires InRange(Lru(), size) && |dirty| == |ids| == size && 0 <= slot < size
      modifies this`prev, this`next, this`lruFirst, this`lruLast
      ensures Lru() == Unlinked(old(Lru()), size, slot)
    {
      ghost var l, p, n := Lru(), prev[slot], next[slot];
      assert -1 <= p < size && -1 <= n < size && |prev| == |next| == size;
      hide InRange;
      if slot == lruFirst {
        lruFirst := next[slot];
      }
      if slot == lruLast {
        lruLast := prev[slot];
      }
      assert lruFirst == (if slot == l.first then n else l.first) && lruLast == (if slot == l.last then p else l.last);
      if next[slot] != -1 {
        prev := prev[next[slot] := prev[slot]];
      }
      assert prev == (if n != -1 then l.prev[n := p] else l.prev) && prev[slot] == p;
      if prev[slot] != -1 {
        next := next[prev[slot] := next[slot]];
      }
      assert next == if p != -1 then l.next[p := n] else l.next;
      prev := prev[slot := -1];
      next := next[slot := -1];
      assert Lru() == Unlinked(l, size, slot);
    }

    /** BlockStatus::init. */
    method Init(slot: int)
      requires InRange(Lru(), size) && |dirty| == |ids| == size && 0 <= slot < size
      modifies this`dirty, this`prev, this`next, this`ids
      ensures Lru() == Cleared(old(Lru()), size, slot) && dirty == old(dirty)[slot := false]
      ensures ids == old(ids)[slot := -1]
    {
      dirty := dirty[slot := false];
      prev := prev[slot := -1];
      next := next[slot := -1];
      ids := ids[slot := -1];
    }

    /** A block that is held is used: its slot moves to the head of the list. */
    method Touch(id: int)
      requires Valid() && id in hashtable
      modifies this`prev, this`next, this`lruFirst, this`lruLast, this`order, this`uses
      ensures Valid() && uses == old(uses) + [id]
    {
      hide Inv, Pushed, Unlinked, InRange, TouchedOrder;
      TouchedInv(Now(), Cfg(), dev.blocks, id);
      var slot := hashtable[id];
      LRURemove(slot);
      LRUAdd(slot);
      order := TouchedOrder(old(Now()), Cfg(), id);
      uses := uses + [id];
    }
    /** Looks a block up; the caller's buffer is filled only on a hit. */
    method Get(id: int, buf: Block) returns (found: bool, block: Block)
      requires Valid()
      modifies this`prev, this`next, this`lruFirst, this`lruLast, this`order, this`uses
      ensures Valid() && found == (id in hashtable)
      ensures block == if found then view[id] else buf
      ensures uses == if found then old(uses) + [id] else old(uses)
    {
      found, block := id in hashtable, buf;
      if found {
        Touch(id);
        block := data[hashtable[id]];
      }
    }

    /** The slot is cleared and becomes the head of the list. */
    method Recycle(slot: int, unlinkFirst: bool)
      requires InRange(Lru(), size) && |dirty| == |ids| == size && 0 <= slot < size
      modifies this`dirty, this`prev, this`next, this`ids, this`lruFirst, this`lruLast
      ensures Lru() == Evicted(old(Lru()), size, slot, unlinkFirst)
      ensures dirty == old(dirty)[slot := false] && ids == old(ids)[slot := -1]
    {
      hide Pushed, Unlinked, Cleared, InRange;
      if unlinkFirst {
        LRURemove(slot);
        Init(slot);
      } else {
        Init(slot);
        LRURemove(slot);
      }
      LRUAdd(slot);
    }

    method TakeFree() returns (slot: int)
      requires Valid() && freeFirst != -1
      modifies this
      ensures slot == old(freeFirst) && Sized(old(Now()), Cfg()) && |old(free)| > 0
      ensures Now() == TakenFree(old(Now()), Cfg())
    {
      hide Evicted, InRange, Inv;
      TakenFreeInv(Now(), Cfg(), dev.blocks);
      slot := freeFirst;
      freeFirst := next[slot];
      Recycle(slot, false);
      order, free := [slot] + order, free[1..];
    }

    method EvictLast() returns (slot: int)
      requires Valid() && freeFirst == -1
      modifies this, dev
      ensures slot == old(lruLast) && Sized(old(Now()), Cfg()) && slot != -1
      ensures Now() == EvictedLast(old(Now()), Cfg())
      ensures dev.blocks == EvictedDisk(old(Now()), Cfg(), old(dev.blocks))
    {
      hide Evicted, InRange, Inv, Towards, RemoveAt;
      EvictedLastInv(Now(), Cfg(), dev.blocks);
      ghost var after := EvictedLast(Now(), Cfg());
      intact, order := after.intact, after.order;
      slot := lruLast;
      if dirty[slot] {
        dev.WriteToDisk(ids[slot], data[slot]);
      }
      hashtable := hashtable - {ids[slot]};
      Recycle(slot, unlinkFirst);
    }

    /** Finds a slot for a block that is not held: a free one, else the last of the
        list, whose block goes to disk if it is dirty. */
    method Alloc() returns (slot: int)
      requires Valid()
      modifies this, dev
      ensures 0 <= slot < size && Inv(Now(), Cfg(), dev.blocks, slot) && ids[slot] == -1 && !dirty[slot]
      ensures view == old(view) && uses == old(uses)
      ensures Towards(old(dev.blocks), dev.blocks, view)
      ensures forall id | id in hashtable :: id in old(hashtable)
      ensures old(freeFirst) != -1 ==>
        slot == old(freeFirst) && hashtable == old(hashtable) && dev.blocks == old(dev.blocks)
      ensures old(freeFirst) == -1 ==> slot == old(lruLast) && hashtable == old(hashtable) - {old(ids)[slot]}
      ensures old(freeFirst) == -1 ==>
        && 0 <= old(ids)[slot] < |old(dev.blocks)|
        && dev.blocks == if old(dirty)[slot] then old(dev.blocks)[old(ids)[slot] := old(data)[slot]]
                         else old(dev.blocks)
      ensures intact == (old(intact) && (unlinkFirst || size == 1 || old(freeFirst) != -1))
    {
      hide Inv, InRange, Evicted, Towards;
      if freeFirst != -1 {
        TakenFreeInv(Now(), Cfg(), dev.blocks);
        TowardsSelf(view, dev.blocks);
        slot := TakeFree();
      } else {
        EvictedLastInv(Now(), Cfg(), dev.blocks);
        slot := EvictLast();
      }
    }
    /** A miss: a slot is found, filled from disk and entered in the table. */
    method Load(id: int) returns (slot: int)
      requires Valid() && 0 <= id < |view| && id !in hashtable
      modifies this, dev
      ensures Valid() && id in hashtable && slot == hashtable[id]
      ensures view == old(view) && uses == old(uses) + [id]
      ensures Towards(old(dev.blocks), dev.blocks, view)
      ensures intact == (old(intact) && (unlinkFirst || size == 1 || old(freeFirst) != -1))
    {
      hide Inv, InRange, Towards;
      slot := Alloc();
      ViewSize(Now(), Cfg(), dev.blocks);
      FilledInv(Now(), Cfg(), dev.blocks, slot, id);
      ids := ids[slot := id];
      var b := dev.ReadFromDisk(id);
      data := data[slot := b];
      hashtable := hashtable[id := slot];
      uses := uses + [id];
    }

    /** The slot of a block, loading the block if it is not held. */
    method GetPage(id: int) returns (slot: int)
      requires Valid() && 0 <= id < |view|
      modifies this, dev
      ensures Valid() && id in hashtable && slot == hashtable[id]
      ensures view == old(view) && uses == old(uses) + [id]
      ensures Towards(old(dev.blocks), dev.blocks, view)
      ensures intact == (old(intact) && (unlinkFirst || size == 1 || old(freeFirst) != -1 || old(id in hashtable)))
      ensures old(id in hashtable) ==> hashtable == old(hashtable) && dev.blocks == old(dev.blocks)
    {
      hide Inv, InRange, Towards;
      if id !in hashtable {
        slot := Load(id);
      } else {
        ViewSize(Now(), Cfg(), dev.blocks);
        TowardsSelf(view, dev.blocks);
        slot := hashtable[id];
        Touch(id);
      }
    }

    /** Inserts or replaces a block; the slot is dirty afterwards. */
    method Upsert(id: int, b: Block)
      requires Valid() && 0 <= id < |view|
      modifies this, dev
      ensures Valid() && view == old(view)[id := b] && uses == old(uses) + [id]
      ensures Dirty(id)
      ensures Towards(old(dev.blocks), dev.blocks, old(view))
      ensures old(id in hashtable) ==> hashtable == old(hashtable) && dev.blocks == old(dev.blocks)
      ensures intact == (old(intact) && (unlinkFirst || size == 1 || old(freeFirst) != -1 || old(id in hashtable)))
    {
      hide Inv, InRange, Towards;
      var slot := GetPage(id);
      UpdatedInv(Now(), Cfg(), dev.blocks, id, b);
      data := data[slot := b];
      if !dirty[slot] {
        dirty := dirty[slot := true];
      }
      assert dirty == dirty[slot := true];
      view := view[id := b];
    }

    /** Writes a block back; fails when the block is not held. */
    method Sync(id: int) returns (ok: bool)
      requires Valid()
      modifies this, dev
      ensures Valid() && view == old(view) && ok == old(id in hashtable)
      ensures ok ==> 0 <= id < |view| == |dev.blocks| && dev.blocks == old(dev.blocks)[id := view[id]]
      ensures !ok ==> dev.blocks == old(dev.blocks)
      ensures uses == if ok then old(uses) + [id] else old(uses)
      ensures intact == old(intact) && hashtable == old(hashtable)
    {
      hide Inv, InRange;
      ok := id in hashtable;
      if ok {
        var slot := hashtable[id];
        Touch(id);
        WrittenBackInv(Now(), Cfg(), dev.blocks, id);
        if dirty[slot] {
          dirty := dirty[slot := false];
          dev.WriteToDisk(id, data[slot]);
        }
      }
    }

    /** Writes every dirty block to disk. The dirty bits stay set. */
    method SyncAll()
      requires Valid()
      modifies dev
      ensures Valid() && dev.blocks == view
    {
      hide Listed, InRange;
      var i := 0;
      while i < size
        invariant 0 <= i <= size && Valid()
        invariant forall s | 0 <= s < i && Mapped(ids, hashtable, s) :: data[s] == dev.blocks[ids[s]]
      {
        if dirty[i] {
          dev.WriteToDisk(ids[i], data[i]);
        }
        i := i + 1;
      }
      forall id | 0 <= id < |view|
        ensures dev.blocks[id] == view[id]
      {
        if id in hashtable { assert Mapped(ids, hashtable, hashtable[id]); }
      }
    }
  }

  class BlockDevice {
    const disk: Disk
    const cache: LRUCacheManager
    ghost var history: seq<seq<Block>>   // what a client has seen after each write

    ghost predicate Valid()
      reads this, disk, cache
    {
      cache.dev == disk && cache.Valid() && |cache.view| <= FAIL
    }

    /** The contents of every block, as a client sees them. */
    ghost function View(): seq<Block>
      reads cache
    {
      cache.view
    }

    lemma Sizes()
      requires Valid()
      ensures |disk.blocks| == |View()| <= FAIL
    {}

    constructor (blocks: nat, cacheSize: nat, unlinkFirst: bool)
      requires cacheSize >= BLOCK_SIZE && blocks <= FAIL
      ensures Valid() && fresh(disk) && fresh(cache) && |View()| == blocks
      ensures disk.blocks == View() && history == []
    {
      var file := new Disk(blocks);
      disk := file;
      cache := new LRUCacheManager(cacheSize, file, unlinkFirst);
      history := [];
    }

    /** The cached copy, or else the block from disk, which is then entered - as if it had
        been written. */
    method Read(id: nat) returns (buf: Block)
      requires Valid() && id < |View()|
      modifies this, disk, cache
      ensures Valid() && View() == old(View()) && history == old(history)
      ensures buf == View()[id]
      ensures Towards(old(disk.blocks), disk.blocks, View())
      ensures |disk.blocks| == |old(disk.blocks)| == |View()|
      ensures forall b | 0 <= b < |disk.blocks| :: disk.blocks[b] == old(disk.blocks)[b] || disk.blocks[b] == View()[b]
      ensures id in old(cache.hashtable) ==> cache.hashtable == old(cache.hashtable) && disk.blocks == old(disk.blocks)
      ensures cache.uses == old(cache.uses) + [id] && id in cache.hashtable
      ensures id !in old(cache.hashtable) ==>
        && cache.Dirty(id) && id in cache.hashtable && 0 <= cache.hashtable[id] < |cache.dirty|
        && cache.dirty[cache.hashtable[id]]
    {
      var found;
      found, buf := cache.Get(id, seq(4096, _ => 0));
      if !found {
        buf := disk.ReadFromDisk(id);
        cache.Upsert(id, buf);
      }
    }

    /** A read of a number that need not be that of a block: beyond the disk it fails. */
    method TryRead(id: nat) returns (buf: Option<Block>)
      requires Valid()
      modifies this, disk, cache
      ensures Valid() && View() == old(View()) && history == old(history)
      ensures buf == if id < |View()| then Some(View()[id]) else None
      ensures Towards(old(disk.blocks), disk.blocks, View())
      ensures id in old(cache.hashtable) ==> cache.hashtable == old(cache.hashtable) && disk.blocks == old(disk.blocks)
    {
      Sizes();
      TowardsSelf(View(), disk.blocks);
      if id >= |disk.blocks| { return None; }
      var b := Read(id);
      buf := Some(b);
    }

    method Write(id: nat, buf: Block)
      requires Valid() && id < |View()|
      modifies this, disk, cache
      ensures Valid() && View() == old(View())[id := buf] && history == old(history) + [View()]
      ensures Towards(old(disk.blocks), disk.blocks, old(View()))
      ensures |disk.blocks| == |old(disk.blocks)| == |View()|
      ensures forall b | 0 <= b < |disk.blocks| ::
        disk.blocks[b] == old(disk.blocks)[b] || disk.blocks[b] == old(View())[b]
      ensures cache.uses == old(cache.uses) + [id] && cache.Dirty(id)
      ensures id in old(cache.hashtable) ==> cache.hashtable == old(cache.hashtable) && disk.blocks == old(disk.blocks)
    {
      cache.Upsert(id, buf);
      history := history + [View()];
    }

    method Sync(id: nat) returns (ok: bool)
      requires Valid() && id < |View()|
      modifies this, disk, cache
      ensures Valid() && View() == old(View()) && history == old(history)
      ensures ok <==> id in old(cache.hashtable)
      ensures cache.hashtable == old(cache.hashtable)
      ensures disk.blocks == if ok then old(disk.blocks)[id := View()[id]] else old(disk.blocks)
      ensures cache.uses == if ok then old(cache.uses) + [id] else old(cache.uses)
    {
      Sizes();
      ok := cache.Sync(id);
    }

    method SyncAll()
      requires Valid()
      modifies this, disk, cache
      ensures Valid() && View() == old(View()) && history == old(history)
      ensures disk.blocks == View()
    {
      cache.SyncAll();
    }
  }
}
