/** The search of a directory, block by block through a reused buffer. */
module DirScan {
  import opened Blocks
  import opened FileSize
  import opened Tree
  import opened DirEntries
  import opened Wrappers

  /** Where the name is; or that it is nowhere; or that reading failed. */
  datatype Found = Hit(i: nat, j: nat, entry: Entry) | Miss | Broken

  /** The bytes of a directory in order. Those of 2 GiB or more could not be read. */
  ghost predicate DirBytes(c: seq<byte>) {
    |c| % ENTRY == 0 && |c| < I31 && Unique(Entries(c)) && Short(Entries(c))
  }

  /** All names are such as an entry can keep. */
  ghost predicate Short(es: seq<Entry>) {
    forall k | 0 <= k < |es| :: |es[k].name| <= NAME_MAX
  }

  lemma ShortName(c: seq<byte>, name: seq<byte>)
    requires DirBytes(c) && name in Bindings(Entries(c))
    ensures |name| <= NAME_MAX && Trunc(name) == name
  {
    BindingsHas(Entries(c), name);
  }

  /** The entry in slot j of the buffer. */
  function Slot(buf: Block, j: nat): Entry
    requires j < SLOTS
  {
    Unpack(buf[j * ENTRY..(j + 1) * ENTRY])
  }

  /** A read of one block of a file with contents c into the buffer. A read that
      starts at the very end of whole blocks is not determined by the contents: it
      asks the tree for a block the file does not have. Its outcome is `atEnd`. */
  function ReadBlock(c: seq<byte>, i: nat, buf: Block, atEnd: bool): (r: Option<Block>)
  {
    var offset := i * BLOCK_SIZE;
    if offset > |c| then None
    else if offset == |c| then (if atEnd then Some(buf) else None)
    else
      var n := if |c| - offset < BLOCK_SIZE then |c| - offset else BLOCK_SIZE;
      Some(c[offset..offset + n] + buf[n..])
  }

  /** What a slot holds after a read: an entry of the block, or what was there. */
  lemma ReadSlot(c: seq<byte>, i: nat, buf: Block, atEnd: bool, j: nat)
    requires |c| % ENTRY == 0 && j < SLOTS && ReadBlock(c, i, buf, atEnd).Some?
    ensures Slot(ReadBlock(c, i, buf, atEnd).value, j) ==
            if i * SLOTS + j < |c| / ENTRY then Entries(c)[i * SLOTS + j] else Slot(buf, j)
  {
    hide Unpack, ReadBlock;
    var r, k := ReadBlock(c, i, buf, atEnd).value, i * SLOTS + j;
    var u := r[j * ENTRY..(j + 1) * ENTRY];
    if k < |c| / ENTRY {
      assert (k + 1) * ENTRY <= |c| && k * ENTRY == i * BLOCK_SIZE + j * ENTRY;
      var v := c[k * ENTRY..(k + 1) * ENTRY];
      forall p | 0 <= p < ENTRY
        ensures u[p] == v[p]
      {
        ReadByte(c, i, buf, atEnd, j * ENTRY + p);
      }
      assert u == v;
    } else {
      var v := buf[j * ENTRY..(j + 1) * ENTRY];
      forall p | 0 <= p < ENTRY
        ensures u[p] == v[p]
      {
        ReadByte(c, i, buf, atEnd, j * ENTRY + p);
      }
      assert u == v;
    }
  }

  lemma ReadByte(c: seq<byte>, i: nat, buf: Block, atEnd: bool, x: nat)
    requires x < BLOCK_SIZE && ReadBlock(c, i, buf, atEnd).Some?
    ensures ReadBlock(c, i, buf, atEnd).value[x] == if i * BLOCK_SIZE + x < |c| then c[i * BLOCK_SIZE + x] else buf[x]
  {}

  /** No slot of the buffer has the name: so it is with a new buffer, and after every
      block that was searched in vain. */
  ghost predicate Clear(buf: Block, name: seq<byte>) {
    forall j: nat | j < SLOTS :: Slot(buf, j).name != name
  }

  lemma EmptySlots(buf: Block)
    requires forall k | 0 <= k < BLOCK_SIZE :: buf[k] == 0
    ensures forall j: nat | j < SLOTS :: Slot(buf, j).name == []
  {}

  lemma FreshBuffer(buf: Block, name: seq<byte>)
    requires IsName(name) && forall k | 0 <= k < BLOCK_SIZE :: buf[k] == 0
    ensures Clear(buf, name)
  {}

  /** The first n entries do not have the name. */
  ghost predicate NotBefore(c: seq<byte>, name: seq<byte>, n: int) {
    forall k | 0 <= k < |Entries(c)| && k < n :: Entries(c)[k].name != name
  }

  /** A search for a name that is not there comes to an end. The total count is too
      large from 23 data blocks on: by one at first, which asks for a block at the very
      end of whole blocks or fails, and by more from 1047 on. */
  predicate Searches(size: nat, atEnd: bool) {
    DataBlocks(size) < DIRECT || (DataBlocks(size) < SINGLE && size % BLOCK_SIZE == 0 && atEnd)
  }

  /** In bytes: up to 22 blocks; and of whole blocks up to 1046. */
  lemma SearchesIs(size: nat, atEnd: bool)
    ensures Searches(size, atEnd) <==>
      size <= 22 * 4096 || (size <= 1046 * 4096 && size % 4096 == 0 && atEnd)
  {}

  /** The scan shared by find, remove, link and unlink, over as many blocks as the
      total count says. */
  method Scan(c: seq<byte>, name: seq<byte>, atEnd: bool) returns (r: Found)
    requires DirBytes(c) && IsName(name)
    ensures r.Hit? ==> r.j < SLOTS && r.i < DataBlocks(|c|) && r.i * SLOTS + r.j < |Entries(c)|
    ensures r.Hit? ==> Entries(c)[r.i * SLOTS + r.j] == r.entry && r.entry.name == name
    ensures r.Hit? <==> name in Bindings(Entries(c))
    ensures r.Hit? ==> Bindings(Entries(c))[name] == r.entry.inode
    ensures r.Miss? <==> name !in Bindings(Entries(c)) && Searches(|c|, atEnd)
  {
    hide Unpack, Bindings, Clear, ReadBlock, Unique, TotalBlocks, DataBlocks;
    Counts(|c|);
    var totBlocks := TotalBlocks(|c|);
    var buf: Block := seq(4096, _ => 0);
    FreshBuffer(buf, name);
    var i := 0;
    while i < totBlocks
      invariant 0 <= i <= totBlocks && Clear(buf, name) && NotBefore(c, name, i * SLOTS)
      invariant i > DataBlocks(|c|) ==> |c| % BLOCK_SIZE == 0 && i == DataBlocks(|c|) + 1 && atEnd
    {
      ReadOutcome(c, i, buf, atEnd);
      var data := ReadBlock(c, i, buf, atEnd);
      if data.None? {
        NotThere(c, name, i * SLOTS);
        return Broken;
      }
      var hit := ScanBlock(c, i, buf, data.value, name, atEnd);
      if hit.Some? {
        HitBinding(c, name, i * SLOTS + hit.value);
        return Hit(i, hit.value, Slot(data.value, hit.value));
      }
      buf := data.value;
      i := i + 1;
    }
    NotThere(c, name, i * SLOTS);
    r := Miss;
  }

  /** The slots of one block, including those that hold what was there before. */
  method ScanBlock(ghost c: seq<byte>, ghost i: nat, ghost old0: Block, buf: Block, name: seq<byte>, ghost atEnd: bool)
    returns (hit: Option<nat>)
    requires DirBytes(c) && Clear(old0, name) && ReadBlock(c, i, old0, atEnd) == Some(buf)
    requires NotBefore(c, name, i * SLOTS)
    ensures hit.Some? ==>
      hit.value < SLOTS && i * SLOTS + hit.value < |Entries(c)| && NotBefore(c, name, i * SLOTS + hit.value)
    ensures hit.Some? ==> Slot(buf, hit.value) == Entries(c)[i * SLOTS + hit.value] && Slot(buf, hit.value).name == name
    ensures hit.None? ==> Clear(buf, name) && NotBefore(c, name, (i + 1) * SLOTS)
  {
    hide Unpack, ReadBlock, Slot, Unique;
    var j := 0;
    while j < SLOTS
      invariant 0 <= j <= SLOTS && NotBefore(c, name, i * SLOTS + j)
      invariant forall k: nat | k < j :: Slot(buf, k).name != name
    {
      ReadSlot(c, i, old0, atEnd, j);
      if Slot(buf, j).name == name {
        return Some(j);
      }
      j := j + 1;
    }
    hit := None;
  }

  lemma HitBinding(c: seq<byte>, name: seq<byte>, k: nat)
    requires k < |Entries(c)| && Entries(c)[k].name == name && NotBefore(c, name, k)
    ensures k / SLOTS < DataBlocks(|c|)
    ensures name in Bindings(Entries(c)) && Bindings(Entries(c))[name] == Entries(c)[k].inode
  {
    hide Unpack;
    BindingsFirst(Entries(c), k);
  }

  lemma NotThere(c: seq<byte>, name: seq<byte>, n: int)
    requires NotBefore(c, name, n) && n >= |Entries(c)|
    ensures name !in Bindings(Entries(c))
  {
    BindingsHas(Entries(c), name);
  }

  /** The total count is the data count below 23 blocks, and larger from there on. */
  lemma Counts(size: nat)
    ensures DataBlocks(size) < DIRECT ==> TotalBlocks(size) == DataBlocks(size)
    ensures DIRECT <= DataBlocks(size) < SINGLE ==> TotalBlocks(size) == DataBlocks(size) + 1
    ensures SINGLE <= DataBlocks(size) ==> TotalBlocks(size) >= DataBlocks(size) + 2
    ensures size / ENTRY <= DataBlocks(size) * SLOTS
  {}

  /** Which reads succeed. */
  lemma ReadOutcome(c: seq<byte>, i: nat, buf: Block, atEnd: bool)
    ensures i < DataBlocks(|c|) ==> ReadBlock(c, i, buf, atEnd).Some?
    ensures ReadBlock(c, i, buf, atEnd).None? ==> i >= DataBlocks(|c|)
    ensures |c| % BLOCK_SIZE == 0 && i == DataBlocks(|c|) && atEnd ==> ReadBlock(c, i, buf, atEnd).Some?
    ensures i >= DataBlocks(|c|) && ReadBlock(c, i, buf, atEnd).Some? ==>
      |c| % BLOCK_SIZE == 0 && i == DataBlocks(|c|) && atEnd
  {}
}
