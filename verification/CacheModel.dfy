/** The block cache as a value: its invariant, and what each step of the cache
    manager does to it. */
module CacheModel {
  import opened Blocks
  import opened LruList
  import opened Recency

  /** The slot's id is in the hash table and leads back to the slot. */
  ghost predicate Mapped(ids: seq<int>, table: map<int, int>, s: int)
    requires 0 <= s < |ids|
  {
    ids[s] in table && table[ids[s]] == s
  }

  /** What the cache and the disk together mean: the cached copy if there is one,
      else the block on disk. */
  ghost predicate Presents(view: seq<Block>, disk: seq<Block>, data: seq<Block>, table: map<int, int>)
  {
    && |view| == |disk|
    && (forall id | id in table :: 0 <= id < |view| && 0 <= table[id] < |data|)
    && (forall id | 0 <= id < |view| :: view[id] == if id in table then data[table[id]] else disk[id])
  }

  /** The hash table is a bijection onto the slots that hold a block; only those can
      be dirty, and a clean copy equals the disk. */
  ghost predicate Coherent(disk: seq<Block>, data: seq<Block>, dirty: seq<bool>, ids: seq<int>, table: map<int, int>)
    requires |data| == |dirty| == |ids|
  {
    && (forall id | id in table :: 0 <= id < |disk| && 0 <= table[id] < |ids| && ids[table[id]] == id)
    && (forall s | 0 <= s < |ids| && dirty[s] :: Mapped(ids, table, s))
    && (forall s | 0 <= s < |ids| && !dirty[s] && Mapped(ids, table, s) :: data[s] == disk[ids[s]])
  }

  /** The list and the free list split the slots between blocks held and slots
      unused. A slot x (or -1) may be listed without holding a block yet. */
  ghost predicate Partition(order: seq<int>, free: seq<int>, ids: seq<int>, table: map<int, int>, x: int) {
    && (forall s | 0 <= s < |ids| && s != x :: s in order <==> Mapped(ids, table, s))
    && (forall s | 0 <= s < |ids| && s != x :: s in free <==> !Mapped(ids, table, s))
    && (x != -1 ==> x !in free)
  }

  ghost predicate AllMapped(ids: seq<int>, table: map<int, int>, x: int) {
    forall s | 0 <= s < |ids| && s != x :: Mapped(ids, table, s)
  }

  /** The slots, in order, hold the most recently used ids, in order of use. */
  ghost predicate HoldsRecent(order: seq<int>, ids: seq<int>, uses: seq<int>)
    requires Slots(order, |ids|)
  {
    && |order| <= |Recent(uses)|
    && forall k {:trigger order[k]} | 0 <= k < |order| :: ids[order[k]] == Recent(uses)[k]
  }

  /** Every block on disk is as before or has received its current contents. */
  ghost predicate Towards(before: seq<Block>, now: seq<Block>, view: seq<Block>) {
    && |before| == |now| == |view|
    && forall id | 0 <= id < |now| :: now[id] == before[id] || now[id] == view[id]
  }

  lemma TouchedChain(l: Links, n: nat, order: seq<int>, k: nat, free: seq<int>, first: int)
    requires InRange(l, n) && Chain(l, n, order) && k < |order|
    requires FreeChain(l.next, first, free) && forall s | s in free :: s !in order
    ensures var r := Pushed(Unlinked(l, n, order[k]), n, order[k]);
      Chain(r, n, [order[k]] + RemoveAt(order, k)) && FreeChain(r.next, first, free)
  {
    UnlinkedChain(l, n, order, k);
    RemoveAtSlots(order, n, k);
    var u := Unlinked(l, n, order[k]);
    PushedChain(u, n, RemoveAt(order, k), order[k]);
    assert order[k] in order;
    FreeUntouched(l.next, Pushed(u, n, order[k]).next, first, free);
  }

  lemma FreeUntouched(next: seq<int>, next': seq<int>, first: int, free: seq<int>)
    requires |next'| == |next| && FreeChain(next, first, free)
    requires forall s | 0 <= s < |next| && s in free :: next'[s] == next[s]
    ensures FreeChain(next', first, free)
  {}

  /** Using a block that is held moves it to the front, in the list and in the log. */
  lemma TouchedRecent(order: seq<int>, ids: seq<int>, uses: seq<int>, k: nat)
    requires Slots(order, |ids|) && HoldsRecent(order, ids, uses) && k < |order|
    ensures Slots([order[k]] + RemoveAt(order, k), |ids|)
    ensures HoldsRecent([order[k]] + RemoveAt(order, k), ids, uses + [ids[order[k]]])
  {
    hide Recent;
    RemoveAtSlots(order, |ids|, k);
    assert ids[order[k]] == Recent(uses)[k];
    RecentHit(uses, k);
    var o, r := [order[k]] + RemoveAt(order, k), Recent(uses);
    forall i | 0 <= i < |o|
      ensures ids[o[i]] == ([r[k]] + RemoveAt(r, k))[i]
    {
      if i > 0 {
        var j := if i - 1 < k then i - 1 else i;
        assert o[i] == order[j];
        assert ([r[k]] + RemoveAt(r, k))[i] == r[j];
      }
    }
  }

  lemma FreeTakenListed(l: Links, n: nat, order: seq<int>, first: int, free: seq<int>, ids: seq<int>, table: map<int,
          int>, uses: seq<int>)
    requires InRange(l, n) && Chain(l, n, order) && FreeChain(l.next, first, free) && |ids| == n && first != -1
    requires Partition(order, free, ids, table, -1) && HoldsRecent(order, ids, uses) && -1 !in table
    ensures 0 <= first < n && |free| > 0 && !Mapped(ids, table, first)
    ensures var r := Evicted(l, n, first, false);
      Chain(r, n, [first] + order) && FreeChain(r.next, l.next[first], free[1..])
    ensures Partition([first] + order, free[1..], ids[first := -1], table, first)
    ensures HoldsRecent(order, ids[first := -1], uses)
  {
    hide Evicted, Forward, Backward, Recent;
    assert free == [first] + free[1..];
    FreeTakenChain(l, n, order, first, free);
    assert first in free;
    forall s | 0 <= s < n && s != first
      ensures s in [first] + order <==> Mapped(ids[first := -1], table, s)
      ensures s in free[1..] <==> !Mapped(ids[first := -1], table, s)
    {
      assert s in [first] + order <==> s in order;
      assert s in free[1..] <==> s in free;
      assert Mapped(ids[first := -1], table, s) <==> Mapped(ids, table, s);
    }
    forall k | 0 <= k < |order|
      ensures ids[first := -1][order[k]] == Recent(uses)[k]
    {
      assert order[k] in order;
    }
  }

  lemma EvictedListed(l: Links, n: nat, order: seq<int>, first: int, free: seq<int>, ids: seq<int>, table: map<int,
          int>, uses: seq<int>, unlinkFirst: bool)
    requires InRange(l, n) && Chain(l, n, order) && FreeChain(l.next, first, free) && |ids| == n && l.last != -1
    requires Partition(order, free, ids, table, -1) && HoldsRecent(order, ids, uses) && -1 !in table
    requires unlinkFirst || n == 1
    requires first == -1
    ensures |order| > 0 && l.last == order[|order| - 1]
    ensures var r, rest := Evicted(l, n, l.last, unlinkFirst), RemoveAt(order, |order| - 1);
      && Chain(r, n, [l.last] + rest) && FreeChain(r.next, first, free)
      && Partition([l.last] + rest, free, ids[l.last := -1], table - {ids[l.last]}, l.last)
      && Slots(rest, n) && HoldsRecent(rest, ids[l.last := -1], uses)
  {
    hide RemoveAt, Evicted, Forward, Backward, Recent;
    var m, rest := |order|, RemoveAt(order, |order| - 1);
    RemoveAtSlots(order, n, m - 1);
    if unlinkFirst {
      EvictedUnlinkFirst(l, n, order);
    } else {
      assert order == [l.last] && [l.last] + rest == [l.last];
      EvictedAlone(l, n, l.last, false);
    }
    assert free == [];
    EmptyFree(Evicted(l, n, l.last, unlinkFirst).next);
    EvictedPartition(order, rest, ids, table, uses);
  }

  /** Without its last slot the list still holds what was used most recently. */
  lemma EvictedPartition(order: seq<int>, rest: seq<int>, ids: seq<int>, table: map<int, int>, uses: seq<int>)
    requires |order| > 0 && Slots(order, |ids|) && Partition(order, [], ids, table, -1) && HoldsRecent(order, ids, uses)
    requires |rest| == |order| - 1 && forall i | 0 <= i < |rest| :: rest[i] == order[i]
    requires Slots(rest, |ids|)
    ensures var last := order[|order| - 1];
      && Partition([last] + rest, [], ids[last := -1], table - {ids[last]}, last)
      && HoldsRecent(rest, ids[last := -1], uses)
  {
    hide Recent;
    var last := order[|order| - 1];
    assert Mapped(ids, table, last);
    forall s | 0 <= s < |ids| && s != last
      ensures s in [last] + rest && Mapped(ids[last := -1], table - {ids[last]}, s)
    {
      assert Mapped(ids, table, s) && s in order;
      StillMapped(ids, table, last, s);
      var k :| 0 <= k < |order| && order[k] == s;
      assert rest[k] == s;
    }
    forall k | 0 <= k < |rest|
      ensures ids[last := -1][rest[k]] == Recent(uses)[k]
    {
      assert rest[k] == order[k] != last;
    }
  }

  lemma EmptyFree(next: seq<int>)
    ensures FreeChain(next, -1, [])
  {}

  /** Eviction loses nothing: a dirty victim goes to disk first, a clean one is there. */
  lemma EvictedPresents(view: seq<Block>, disk: seq<Block>, disk': seq<Block>, data: seq<Block>, dirty: seq<bool>,
          ids: seq<int>, table: map<int, int>, slot: int)
    requires |data| == |dirty| == |ids| && Presents(view, disk, data, table) && Coherent(disk, data, dirty, ids, table)
    requires 0 <= slot < |ids| && Mapped(ids, table, slot)
    requires disk' == if dirty[slot] then disk[ids[slot] := data[slot]] else disk
    ensures Presents(view, disk', data, table - {ids[slot]})
    ensures Coherent(disk', data, dirty[slot := false], ids[slot := -1], table - {ids[slot]})
    ensures AllMapped(ids, table, -1) ==> AllMapped(ids[slot := -1], table - {ids[slot]}, slot)
    ensures Towards(disk, disk', view)
  {
    hide Presents, Coherent, Mapped;
    EvictedView(view, disk, disk', data, dirty, ids, table, slot);
    EvictedCoherent(view, disk, disk', data, dirty, ids, table, slot);
    if AllMapped(ids, table, -1) {
      var ids', table' := ids[slot := -1], table - {ids[slot]};
      forall s | 0 <= s < |ids| && s != slot
        ensures Mapped(ids', table', s)
      {
        StillMapped(ids, table, slot, s);
      }
    }
  }

  lemma StillMapped(ids: seq<int>, table: map<int, int>, slot: int, s: int)
    requires 0 <= slot < |ids| && 0 <= s < |ids| && s != slot && Mapped(ids, table, slot) && Mapped(ids, table, s)
    ensures Mapped(ids[slot := -1], table - {ids[slot]}, s)
  {}

  lemma EvictedView(view: seq<Block>, disk: seq<Block>, disk': seq<Block>, data: seq<Block>, dirty: seq<bool>,
          ids: seq<int>, table: map<int, int>, slot: int)
    requires |data| == |dirty| == |ids| && Presents(view, disk, data, table) && Coherent(disk, data, dirty, ids, table)
    requires 0 <= slot < |ids| && Mapped(ids, table, slot)
    requires disk' == if dirty[slot] then disk[ids[slot] := data[slot]] else disk
    ensures Presents(view, disk', data, table - {ids[slot]}) && Towards(disk, disk', view)
  {
    var id := ids[slot];
    assert view[id] == data[slot] && disk'[id] == data[slot];
    assert forall i | 0 <= i < |disk| && i != id :: disk'[i] == disk[i];
  }

  lemma EvictedCoherent(view: seq<Block>, disk: seq<Block>, disk': seq<Block>, data: seq<Block>, dirty: seq<bool>,
          ids: seq<int>, table: map<int, int>, slot: int)
    requires |data| == |dirty| == |ids| && Presents(view, disk, data, table) && Coherent(disk, data, dirty, ids, table)
    requires 0 <= slot < |ids| && Mapped(ids, table, slot)
    requires disk' == if dirty[slot] then disk[ids[slot] := data[slot]] else disk
    ensures Coherent(disk', data, dirty[slot := false], ids[slot := -1], table - {ids[slot]})
  {
    hide Presents;
    var id := ids[slot];
    assert -1 !in table;
    forall s | 0 <= s < |ids| && s != slot
      ensures Mapped(ids[slot := -1], table - {id}, s) <==> Mapped(ids, table, s)
    {}
    assert forall s | 0 <= s < |ids| && s != slot && Mapped(ids, table, s) :: disk'[ids[s]] == disk[ids[s]];
  }

  lemma NoneFree(next: seq<int>, free: seq<int>, order: seq<int>, ids: seq<int>, table: map<int, int>, x: int)
    requires FreeChain(next, -1, free) && Partition(order, free, ids, table, x)
    ensures AllMapped(ids, table, x)
  {}

  lemma ViewSize(c: State, k: Config, disk: seq<Block>)
    requires exists x :: Inv(c, k, disk, x)
    ensures |c.view| == |disk|
  {}

  /** The disk has the current contents of a block. */
  ghost predicate OnDisk(disk: seq<Block>, view: seq<Block>, id: int) {
    0 <= id < |disk| && 0 <= id < |view| && disk[id] == view[id]
  }

  /** Once it has, loads, evictions and write-backs of any block do not change that. */
  lemma StaysOnDisk(a: seq<Block>, b: seq<Block>, view: seq<Block>, id: int)
    requires Towards(a, b, view) && OnDisk(a, view, id)
    ensures OnDisk(b, view, id)
  {}

  lemma TowardsTrans(a: seq<Block>, b: seq<Block>, c: seq<Block>, view: seq<Block>)
    requires Towards(a, b, view) && Towards(b, c, view)
    ensures Towards(a, c, view)
  {}

  lemma TowardsSelf(view: seq<Block>, disk: seq<Block>)
    requires |view| == |disk|
    ensures Towards(disk, disk, view)
  {}

  lemma UnusedCoherent(disk: seq<Block>, data: seq<Block>, dirty: seq<bool>, ids: seq<int>, table: map<int, int>,
          slot: int)
    requires |data| == |dirty| == |ids| && Coherent(disk, data, dirty, ids, table)
    requires 0 <= slot < |ids| && !Mapped(ids, table, slot)
    ensures Coherent(disk, data, dirty[slot := false], ids[slot := -1], table)
  {}

  /** A miss fills the allocated slot from disk. */
  lemma FilledListed(order: seq<int>, free: seq<int>, ids: seq<int>, table: map<int, int>, uses: seq<int>, slot: int,
          id: int)
    requires Slots(order, |ids|) && |order| > 0 && order[0] == slot && Slots(order[1..], |ids|)
    requires Partition(order, free, ids, table, slot) && HoldsRecent(order[1..], ids, uses)
    requires id !in table && forall i | i in table :: table[i] != slot
    ensures Partition(order, free, ids[slot := id], table[id := slot], -1)
    ensures HoldsRecent(order, ids[slot := id], uses + [id])
  {
    hide Recent;
    var rest := order[1..];
    assert order == [slot] + rest;
    forall k | 0 <= k < |rest|
      ensures Recent(uses)[k] == ids[rest[k]] != id
    {
      assert rest[k] == order[k + 1] && rest[k] in order;
      assert Mapped(ids, table, rest[k]);
    }
    forall s | 0 <= s < |ids|
      ensures s in order <==> Mapped(ids[slot := id], table[id := slot], s)
      ensures s in free <==> !Mapped(ids[slot := id], table[id := slot], s)
    {
      if s != slot {
        assert Mapped(ids[slot := id], table[id := slot], s) <==> Mapped(ids, table, s);
      }
    }
    RecentMiss(uses, id, |rest|);
    var r := Recent(uses + [id]);
    forall k | 0 <= k < |order|
      ensures ids[slot := id][order[k]] == r[k]
    {
      assert r[k] == r[..|order|][k];
      if k > 0 {
        assert order[k] == rest[k - 1];
        assert Recent(uses)[k - 1] == ids[rest[k - 1]];
      }
    }
  }

  /** The fields of the cache, with its ghost history, as one value. */
  datatype State = State(freeFirst: int, lru: Links, table: map<int, int>, data: seq<Block>, dirty: seq<bool>,
    ids: seq<int>,
                         view: seq<Block>, uses: seq<int>, intact: bool, order: seq<int>, free: seq<int>)

  datatype Config = Config(size: nat, unlinkFirst: bool)

  ghost predicate Sized(c: State, k: Config) {
    && k.size > 0
    && |c.data| == |c.dirty| == |c.ids| == k.size
    && InRange(c.lru, k.size)
    && -1 <= c.freeFirst < k.size
  }

  ghost predicate Listed(c: State, k: Config, x: int)
    requires Sized(c, k)
  {
    && Chain(c.lru, k.size, c.order)
    && FreeChain(c.lru.next, c.freeFirst, c.free)
    && Partition(c.order, c.free, c.ids, c.table, x)
    && if x == -1 then HoldsRecent(c.order, c.ids, c.uses)
       else |c.order| > 0 && c.order[0] == x && Slots(c.order[1..], k.size) && HoldsRecent(c.order[1..], c.ids, c.uses)
  }

  /** The invariant; in the middle of a miss slot x is allocated but holds no block. */
  ghost predicate Inv(c: State, k: Config, disk: seq<Block>, x: int) {
    && Sized(c, k)
    && Presents(c.view, disk, c.data, c.table)
    && Coherent(disk, c.data, c.dirty, c.ids, c.table)
    && (c.freeFirst == -1 ==> c.lru.last != -1 && AllMapped(c.ids, c.table, x))
    && (k.unlinkFirst || c.freeFirst != -1 || k.size == 1 ==> c.intact)
    && (c.intact ==> Listed(c, k, x))
  }

  /** The slots in list order once the block with this id has been used. */
  ghost function TouchedOrder(c: State, k: Config, id: int): seq<int> {
    if c.intact && id in c.table && c.table[id] in c.order then
      var i :| 0 <= i < |c.order| && c.order[i] == c.table[id];
      [c.order[i]] + RemoveAt(c.order, i)
    else c.order
  }

  ghost function Touched(c: State, k: Config, id: int): State
    requires Sized(c, k) && id in c.table && 0 <= c.table[id] < k.size
  {
    var s := c.table[id];
    c.(lru := Pushed(Unlinked(c.lru, k.size, s), k.size, s), order := TouchedOrder(c, k, id), uses := c.uses + [id])
  }

  /** The slot of a block that is held. */
  lemma HeldFacts(c: State, k: Config, disk: seq<Block>, id: int)
    requires Inv(c, k, disk, -1) && id in c.table
    ensures 0 <= c.table[id] < k.size && 0 <= id < |disk| && c.ids[c.table[id]] == id
    ensures c.intact ==> c.table[id] in c.order && forall s | s in c.free :: s !in c.order
  {
    assert Mapped(c.ids, c.table, c.table[id]);
  }

  lemma TouchedInv(c: State, k: Config, disk: seq<Block>, id: int)
    requires Inv(c, k, disk, -1) && id in c.table
    ensures Sized(c, k) && 0 <= c.table[id] < k.size && 0 <= id < |disk|
    ensures Inv(Touched(c, k, id), k, disk, -1)
  {
    hide Chain, FreeChain, HoldsRecent, Presents, Pushed, Unlinked, InRange, Coherent, AllMapped, RemoveAt, Forward,
      Backward, Mapped, Slots, Partition;
    HeldFacts(c, k, disk, id);
    var s := c.table[id];
    if c.intact {
      ChainSlots(c.lru, k.size, c.order);
      var i :| 0 <= i < |c.order| && c.order[i] == s && TouchedOrder(c, k, id) == [s] + RemoveAt(c.order, i);
      TouchedChain(c.lru, k.size, c.order, i, c.free, c.freeFirst);
      TouchedRecent(c.order, c.ids, c.uses, i);
      RemoveAtSlots(c.order, k.size, i);
      SamePartition(c.order, [s] + RemoveAt(c.order, i), c.free, c.ids, c.table);
    }
  }

  lemma SamePartition(order: seq<int>, order': seq<int>, free: seq<int>, ids: seq<int>, table: map<int, int>)
    requires Partition(order, free, ids, table, -1) && forall s :: s in order' <==> s in order
    ensures Partition(order', free, ids, table, -1)
  {}

  ghost function TakenFree(c: State, k: Config): State
    requires Sized(c, k) && c.freeFirst != -1 && |c.free| > 0
  {
    var s := c.freeFirst;
    c.(freeFirst := c.lru.next[s], lru := Evicted(c.lru, k.size, s, false), dirty := c.dirty[s := false],
      ids := c.ids[s := -1],
       order := [s] + c.order, free := c.free[1..])
  }

  lemma TakenFreeInv(c: State, k: Config, disk: seq<Block>)
    requires Inv(c, k, disk, -1) && c.freeFirst != -1
    ensures |c.view| == |disk| && Sized(c, k) && |c.free| > 0 && |c.lru.next| == k.size
    ensures -1 <= c.lru.next[c.freeFirst] < k.size
    ensures Inv(TakenFree(c, k), k, disk, c.freeFirst)
  {
    assert -1 !in c.table;
    assert -1 <= c.lru.next[c.freeFirst] < k.size;
    hide Chain, FreeChain, Partition, HoldsRecent, Presents, Evicted, InRange, Slots, Coherent, Mapped, AllMapped;
    FreeTakenListed(c.lru, k.size, c.order, c.freeFirst, c.free, c.ids, c.table, c.uses);
    UnusedCoherent(disk, c.data, c.dirty, c.ids, c.table, c.freeFirst);
    var c' := TakenFree(c, k);
    assert c'.order[1..] == c.order;
    if c'.freeFirst == -1 {
      NoneFree(c'.lru.next, c'.free, c'.order, c'.ids, c'.table, c.freeFirst);
    }
  }

  /** The last slot of the list gives up its block, which goes to disk if dirty. */
  ghost function EvictedDisk(c: State, k: Config, disk: seq<Block>): seq<Block>
    requires Sized(c, k) && c.lru.last != -1
  {
    var s := c.lru.last;
    if c.dirty[s] && 0 <= c.ids[s] < |disk| then disk[c.ids[s] := c.data[s]] else disk
  }

  ghost function EvictedLast(c: State, k: Config): State
    requires Sized(c, k) && c.lru.last != -1
  {
    var s := c.lru.last;
    var ok := c.intact && (k.unlinkFirst || k.size == 1) && |c.order| > 0;
    c.(lru := Evicted(c.lru, k.size, s, k.unlinkFirst), dirty := c.dirty[s := false], ids := c.ids[s := -1],
       table := c.table - {c.ids[s]}, intact := ok, order := if ok then [s] + RemoveAt(c.order, |c.order| - 1)
         else c.order)
  }

  /** The slot at the end of the list when none is free. */
  lemma VictimFacts(c: State, k: Config, disk: seq<Block>)
    requires Inv(c, k, disk, -1) && c.freeFirst == -1
    ensures -1 !in c.table && 0 <= c.lru.last < k.size && Mapped(c.ids, c.table, c.lru.last)
    ensures 0 <= c.ids[c.lru.last] < |disk|
  {
    hide Chain, FreeChain, HoldsRecent, Partition;
  }

  lemma EvictedLastInv(c: State, k: Config, disk: seq<Block>)
    requires Inv(c, k, disk, -1) && c.freeFirst == -1
    ensures Sized(c, k) && 0 <= c.lru.last < k.size && (c.intact ==> |c.order| > 0) && 0 <= c.ids[c.lru.last] < |disk|
    ensures Inv(EvictedLast(c, k), k, EvictedDisk(c, k, disk), c.lru.last)
    ensures Towards(disk, EvictedDisk(c, k, disk), c.view)
  {
    hide Chain, FreeChain, Partition, HoldsRecent, Presents, Evicted, InRange, Slots, Coherent, Mapped, AllMapped,
      Towards, RemoveAt;
    VictimFacts(c, k, disk);
    var s := c.lru.last;
    EvictedPresents(c.view, disk, EvictedDisk(c, k, disk), c.data, c.dirty, c.ids, c.table, s);
    if c.intact {
      NonEmpty(c.lru, k.size, c.order);
      if k.unlinkFirst || k.size == 1 {
        EvictedListed(c.lru, k.size, c.order, c.freeFirst, c.free, c.ids, c.table, c.uses, k.unlinkFirst);
        var rest := RemoveAt(c.order, |c.order| - 1);
        assert ([s] + rest)[1..] == rest;
      }
    }
  }

  lemma NonEmpty(l: Links, n: nat, order: seq<int>)
    requires InRange(l, n) && Chain(l, n, order) && l.last != -1
    ensures |order| > 0
  {}

  /** The victim is the least recently used of all the blocks held. */
  lemma VictimIsLeastRecent(c: State, k: Config, disk: seq<Block>)
    requires Inv(c, k, disk, -1) && c.intact && c.lru.last != -1
    ensures c.ids[c.lru.last] in c.table
    ensures forall id | id in c.table && id != c.ids[c.lru.last] ::
      LastUse(c.uses, id) > LastUse(c.uses, c.ids[c.lru.last])
  {
    hide Recent, Forward, Backward;
    NonEmpty(c.lru, k.size, c.order);
    RecentOrder(c.uses);
    var m, r := |c.order|, Recent(c.uses);
    assert c.lru.last == c.order[m - 1] && c.lru.last in c.order && c.ids[c.lru.last] == r[m - 1];
    forall id | id in c.table && id != c.ids[c.lru.last]
      ensures LastUse(c.uses, id) > LastUse(c.uses, c.ids[c.lru.last])
    {
      assert Mapped(c.ids, c.table, c.table[id]);
      var i :| 0 <= i < m && c.order[i] == c.table[id];
      assert id == r[i];
    }
  }

  /** A miss: the allocated slot receives the block from disk and is entered. */
  ghost function Filled(c: State, slot: int, id: int, b: Block): State
    requires 0 <= slot < |c.ids| && |c.data| == |c.ids|
  {
    c.(ids := c.ids[slot := id], data := c.data[slot := b], table := c.table[id := slot], uses := c.uses + [id])
  }

  lemma FilledInv(c: State, k: Config, disk: seq<Block>, slot: int, id: int)
    requires Inv(c, k, disk, slot) && 0 <= slot < k.size && c.ids[slot] == -1 && !c.dirty[slot]
    requires 0 <= id < |disk| && id !in c.table
    ensures Inv(Filled(c, slot, id, disk[id]), k, disk, -1)
    ensures |c.ids| == |c.data| == k.size && |c.view| == |disk| && c.view[id] == disk[id]
  {
    assert -1 !in c.table;
    assert forall i | i in c.table :: c.table[i] != slot;
    FilledCoherent(c.view, disk, c.data, c.dirty, c.ids, c.table, slot, id);
    hide Chain, FreeChain, Partition, HoldsRecent, Presents, InRange, Coherent, Mapped, AllMapped;
    if c.intact {
      assert Slots(c.order, |c.ids|) by { ChainSlots(c.lru, k.size, c.order); }
      FilledListed(c.order, c.free, c.ids, c.table, c.uses, slot, id);
    }
  }

  lemma ChainSlots(l: Links, n: nat, order: seq<int>)
    requires InRange(l, n) && Chain(l, n, order)
    ensures Slots(order, n)
  {}

  lemma FilledCoherent(view: seq<Block>, disk: seq<Block>, data: seq<Block>, dirty: seq<bool>, ids: seq<int>,
          table: map<int, int>, slot: int, id: int)
    requires |data| == |dirty| == |ids| && Presents(view, disk, data, table) && Coherent(disk, data, dirty, ids, table)
    requires 0 <= slot < |ids| && !dirty[slot] && forall i | i in table :: table[i] != slot
    requires 0 <= id < |disk| && id !in table
    ensures Presents(view, disk, data[slot := disk[id]], table[id := slot])
    ensures Coherent(disk, data[slot := disk[id]], dirty, ids[slot := id], table[id := slot])
    ensures AllMapped(ids, table, slot) ==> AllMapped(ids[slot := id], table[id := slot], -1)
  {
    if AllMapped(ids, table, slot) {
      forall s {:trigger ids[s]} | 0 <= s < |ids|
        ensures Mapped(ids[slot := id], table[id := slot], s)
      {
        assert s != slot ==> Mapped(ids, table, s);
      }
    }
  }

  /** An update of a block that is held: only the slot and the client's view change. */
  ghost function Updated(c: State, id: int, b: Block): State
    requires id in c.table && 0 <= c.table[id] < |c.data| == |c.dirty| && 0 <= id < |c.view|
  {
    c.(data := c.data[c.table[id] := b], dirty := c.dirty[c.table[id] := true], view := c.view[id := b])
  }

  lemma UpdatedInv(c: State, k: Config, disk: seq<Block>, id: int, b: Block)
    requires Inv(c, k, disk, -1) && id in c.table
    ensures 0 <= c.table[id] < |c.data| == |c.dirty| && 0 <= id < |c.view|
    ensures Inv(Updated(c, id, b), k, disk, -1)
  {
    hide Chain, FreeChain, Partition, HoldsRecent, InRange, AllMapped;
    UpdatedPresents(c.view, disk, c.data, c.dirty, c.ids, c.table, id, b);
  }

  lemma UpdatedPresents(view: seq<Block>, disk: seq<Block>, data: seq<Block>, dirty: seq<bool>, ids: seq<int>,
          table: map<int, int>, id: int, b: Block)
    requires |data| == |dirty| == |ids| && Presents(view, disk, data, table) && Coherent(disk, data, dirty, ids, table)
    requires id in table
    ensures 0 <= table[id] < |data| && 0 <= id < |view|
    ensures Presents(view[id := b], disk, data[table[id] := b], table)
    ensures Coherent(disk, data[table[id] := b], dirty[table[id] := true], ids, table)
  {}

  /** A block written back: its slot is clean and the disk has it. */
  lemma WrittenBackInv(c: State, k: Config, disk: seq<Block>, id: int)
    requires Inv(c, k, disk, -1) && id in c.table
    ensures 0 <= c.table[id] < |c.data| == |c.dirty| && 0 <= id < |disk| == |c.view|
    ensures !c.dirty[c.table[id]] ==> disk[id] == c.view[id]
    ensures Inv(c.(dirty := c.dirty[c.table[id] := false]), k, disk[id := c.data[c.table[id]]], -1)
    ensures c.data[c.table[id]] == c.view[id]
  {
    hide Chain, FreeChain, Partition, HoldsRecent, InRange, AllMapped;
  }
}
