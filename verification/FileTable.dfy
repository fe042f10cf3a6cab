/** The inode operations on names. A file is here its type, its link count and its
    bytes; an operation works on a copy of a record and writes it back, as the code
    does. */
module Files {
  import opened Blocks
  import opened Tree
  import opened FileSize
  import opened DirEntries
  import opened DirScan
  import opened Wrappers

  type Count = x: int | 0 <= x < 0x1_0000   // uint16_t

  datatype FileRec = FileRec(isDir: bool, links: Count, bytes: seq<byte>)

  ghost predicate DirOk(r: FileRec) {
    r.isDir && DirBytes(r.bytes)
  }

  /** The directory as a finite map from names to inodes. */
  ghost function Names(r: FileRec): map<seq<byte>, Word> {
    Bindings(Entries(r.bytes))
  }

  /** Every entry of every directory leads to a file. */
  ghost predicate Closed(files: map<int, FileRec>) {
    forall d | d in files && files[d].isDir :: DirBytes(files[d].bytes) &&
      forall n | n in Names(files[d]) :: Names(files[d])[n] in files
  }

  /** Only the directory `dir` and the link count of `id` changed. */
  ghost predicate OnlyTouched(files: map<int, FileRec>, files': map<int, FileRec>, dir: int, id: int) {
    && files'.Keys == files.Keys && dir in files && DirOk(files[dir]) && DirOk(files'[dir])
    && (forall f | f in files && f != dir ::
          files'[f] == if f == id then files[f].(links := files'[f].links) else files[f])
    && (id != dir ==> files'[dir].links == files[dir].links)
  }

  /** A name can be linked: a name that is there if it may be replaced, another if the
      search for it ends and the directory can grow. */
  ghost predicate Linkable(r: FileRec, name: seq<byte>, replace: bool, room: bool, atEnd: bool) {
    r.isDir && if name in Names(r) then replace else room && Searches(|r.bytes|, atEnd)
  }

  /** What link keeps of the name is there, though the name is not. */
  ghost predicate Doubles(r: FileRec, name: seq<byte>) {
    name !in Names(r) && Trunc(name) in Names(r)
  }

  /** A second entry of a name that is there: it is never found, and the directory is
      not in order any more. */
  ghost predicate Doubled(files: map<int, FileRec>, files': map<int, FileRec>, dir: int, name: seq<byte>, id: Word) {
    && dir in files && id in files
    && files' == files[id as int := files[id].(links := Up(files[id].links))]
                      [dir := files[dir].(bytes := files[dir].bytes + Pack(name, id))]
    && !DirBytes(files'[dir].bytes) && Names(files'[dir]) == Names(files[dir])
  }

  /** What create does to the table. The name is not looked up; what fails leaves the
      inode number taken. */
  ghost predicate CreateEffect(files: map<int, FileRec>, used: set<int>, files': map<int, FileRec>, used': set<int>,
          dir: int, name: seq<byte>, rec: FileRec, id: Word, roomParent: bool, roomNew: bool, ok: bool)
  {
    && dir in files
    && (ok <==> files[dir].isDir && roomParent && (rec.isDir ==> roomNew))
    && used' == (if files[dir].isDir then used + {id as int} else used)
    && (!ok ==> files' == files)
    && (ok ==>
        && files'.Keys == files.Keys + {id as int, dir}
        && (forall f | f in files && f != dir && f != id :: files'[f] == files[f])
        && files'[dir] == files[dir].(bytes := files[dir].bytes + Pack(name, id))
        && files'[id] == rec.(bytes := if rec.isDir then rec.bytes + DotEntries(id, dir % U32) else rec.bytes)
        && (DirBytes(files'[dir].bytes) <==> Trunc(name) !in Names(files[dir]))
        && Names(files'[dir]) == (if Trunc(name) in Names(files[dir]) then Names(files[dir])
                                  else Names(files[dir])[Trunc(name) := id]))
  }

  /** What unlink does: a name goes, and its inode has a link less. */
  ghost predicate UnlinkEffect(files: map<int, FileRec>, files': map<int, FileRec>, dir: int, name: seq<byte>,
          r: Option<Word>)
  {
    && dir in files && dir in files'
    && r == (if files[dir].isDir && name in Names(files[dir]) then Some(Names(files[dir])[name]) else None)
    && (r.None? ==> files' == files)
    && (r.Some? ==>
        && OnlyTouched(files, files', dir, r.value)
        && r.value in files && r.value in files' && files'[r.value].links == Down(files[r.value].links)
        && Names(files'[dir]) == Names(files[dir]) - {name}
        && |files'[dir].bytes| + ENTRY == |files[dir].bytes|)
  }

  /** What remove does: the name goes, and its inode with it when the link was the last.
      When it was not, nothing changes. */
  ghost predicate RemoveEffect(files: map<int, FileRec>, used: set<int>, files': map<int, FileRec>, used': set<int>,
                          dir: int, name: seq<byte>, ok: bool)
  {
    && dir in files
    && (ok <==> files[dir].isDir && name in Names(files[dir]))
    && (ok ==> Names(files[dir])[name] in files)
    && if ok && files[Names(files[dir])[name]].links == 1 then
         && dir in files' && files' == files[dir := files'[dir]] && used' == used - {Names(files[dir])[name] as int}
         && DirOk(files'[dir]) && files'[dir].links == files[dir].links
         && Names(files'[dir]) == Names(files[dir]) - {name}
       else files' == files && used' == used
  }

  /** What link does: an existing name is redirected; any other is appended as far as an
      entry can keep it, which makes a second entry if what is kept is there already. */
  ghost predicate LinkEffect(files: map<int, FileRec>, files': map<int, FileRec>, dir: int, name: seq<byte>, id: Word,
                        replace: bool, room: bool, atEnd: bool, ok: bool)
  {
    && dir in files && id in files
    && (ok <==> Linkable(files[dir], name, replace, room, atEnd))
    && (ok ==>
        && dir in files' && id in files'
        && (if Doubles(files[dir], name) then Doubled(files, files', dir, name, id)
            else OnlyTouched(files, files', dir, id) && Names(files'[dir]) == Names(files[dir])[Trunc(name) := id])
        && (id != dir ==> files'[id].links == Up(files[id].links))
        && |files'[dir].bytes| == |files[dir].bytes| + if name in Names(files[dir]) then 0 else ENTRY)
    && (!ok && Linkable(files[dir], name, false, true, atEnd) ==>
        files' == files[id as int := files[id].(links := Up(files[id].links))])
    && (!ok && !Linkable(files[dir], name, false, true, atEnd) ==> files' == files)
  }

  function Up(n: Count): Count { (n + 1) % 0x1_0000 }
  function Down(n: Count): Count { (n + 0xFFFF) % 0x1_0000 }

  const DOT: seq<byte> := [46]
  const DOTDOT: seq<byte> := [46, 46]

  /** The bytes after deletion of the entry in slot j of block i: the last entry is
      moved there unless it is the last slot of the last block, and the file is cut. */
  function CutEntry(c: seq<byte>, totBlocks: nat, i: nat, j: nat): seq<byte>
    requires |c| >= ENTRY && (i * SLOTS + j + 1) * ENTRY <= |c|
  {
    var k := i * SLOTS + j;
    var last := i as int == totBlocks - 1 && j == SLOTS - 1;
    var moved := if last then c else c[..k * ENTRY] + c[|c| - ENTRY..] + c[(k + 1) * ENTRY..];
    moved[..|c| - ENTRY]
  }

  lemma CutEntryIs(c: seq<byte>, i: nat, j: nat)
    requires DirBytes(c) && j < SLOTS && i < DataBlocks(|c|) && i * SLOTS + j < |Entries(c)|
    ensures var k, c' := i * SLOTS + j, CutEntry(c, TotalBlocks(|c|), i, j);
      && DirBytes(c') && Entries(c') == SwapOut(Entries(c), k)
      && Entries(c') == Entries(c)[k := Entries(c)[|Entries(c)| - 1]][..|Entries(c)| - 1]
      && Bindings(Entries(c')) == Bindings(Entries(c)) - {Entries(c)[k].name}
  {
    hide Unpack, Bindings, Unique, TotalBlocks, DataBlocks;
    var n, k := |c| / ENTRY, i * SLOTS + j;
    SwapOutBindings(Entries(c), k);
    assert (k + 1) * ENTRY <= n * ENTRY;
    if i as int != TotalBlocks(|c|) - 1 || j != SLOTS - 1 {
      MoveLast(c, k);
    } else {
      LastSlot(|c|, i, j);
      EntriesShrink(c, c[..|c| - ENTRY]);
      assert SwapOut(Entries(c), n - 1) == Entries(c)[..n - 1];
    }
  }

  lemma MoveLast(c: seq<byte>, k: nat)
    requires |c| % ENTRY == 0 && (k + 1) * ENTRY <= |c|
    ensures var c' := (c[..k * ENTRY] + c[|c| - ENTRY..] + c[(k + 1) * ENTRY..])[..|c| - ENTRY];
      |c'| == |c| - ENTRY && Entries(c') == SwapOut(Entries(c), k)
  {
    hide Unpack;
    var n, e := |c| / ENTRY, c[|c| - ENTRY..];
    assert (n - 1) * ENTRY == |c| - ENTRY && c[(n - 1) * ENTRY..n * ENTRY] == e;
    var moved := c[..k * ENTRY] + e + c[(k + 1) * ENTRY..];
    EntriesUpdate(c, moved, k, e);
    EntriesShrink(moved, moved[..|c| - ENTRY]);
  }

  /** The last slot of the last block is the last entry of the directory. */
  lemma LastSlot(size: nat, i: nat, j: nat)
    requires i == TotalBlocks(size) - 1 && j == SLOTS - 1 && i < DataBlocks(size) && i * SLOTS + j < size / ENTRY
    ensures i * SLOTS + j == size / ENTRY - 1
  {}

  /** The bytes after overwriting entry k. */
  function SetEntry(c: seq<byte>, k: nat, e: seq<byte>): seq<byte>
    requires (k + 1) * ENTRY <= |c| && |e| == ENTRY
  {
    c[..k * ENTRY] + e + c[(k + 1) * ENTRY..]
  }

  lemma AppendIs(c: seq<byte>, name: seq<byte>, inode: Word)
    requires DirBytes(c) && IsName(name) && |c| + ENTRY < I31
    ensures Trunc(name) == if |name| <= 251 then name else name[..251]
    ensures DirBytes(c + Pack(name, inode)) <==> Trunc(name) !in Bindings(Entries(c))
    ensures Trunc(name) !in Bindings(Entries(c)) ==>
      Bindings(Entries(c + Pack(name, inode))) == Bindings(Entries(c))[Trunc(name) := inode]
    ensures Trunc(name) in Bindings(Entries(c)) ==> Bindings(Entries(c + Pack(name, inode))) == Bindings(Entries(c))
  {
    hide Unpack, Pack, Bindings, Unique;
    PackUnpack(name, inode);
    EntriesAppend(c, Pack(name, inode));
    AppendBindings(Entries(c), Unpack(Pack(name, inode)));
  }

  lemma SetEntryIs(c: seq<byte>, k: nat, name: seq<byte>, inode: Word)
    requires DirBytes(c) && k < |Entries(c)| && Entries(c)[k].name == name && 0 !in name && |name| <= NAME_MAX
    ensures (k + 1) * ENTRY <= |c| && DirBytes(SetEntry(c, k, Pack(name, inode)))
    ensures |SetEntry(c, k, Pack(name, inode))| == |c|
    ensures Entries(SetEntry(c, k, Pack(name, inode))) == Entries(c)[k := Entry(name, inode)]
    ensures Bindings(Entries(SetEntry(c, k, Pack(name, inode)))) == Bindings(Entries(c))[name := inode]
  {
    hide Unpack, Pack, Bindings, Unique;
    PackUnpack(name, inode);
    assert (k + 1) * ENTRY <= |c|;
    EntriesUpdate(c, SetEntry(c, k, Pack(name, inode)), k, Pack(name, inode));
    RebindBindings(Entries(c), k, inode);
  }

  /** The bytes of a new directory. */
  function DotEntries(id: Word, parent: Word): seq<byte> {
    Pack(DOT, id) + Pack(DOTDOT, parent)
  }

  /** They are an entry "." and an entry "..", in this order. */
  lemma DotNames(id: Word, parent: Word)
    ensures DirBytes(DotEntries(id, parent))
    ensures Entries(DotEntries(id, parent)) == [Entry([46], id), Entry([46, 46], parent)]
    ensures Bindings(Entries(DotEntries(id, parent))) == map[[46] := id, [46, 46] := parent]
  {
    hide Unpack, Pack, Bindings, Unique;
    NoEntries();
    AppendIs([], DOT, id);
    PackUnpack(DOT, id);
    EntriesAppend([], Pack(DOT, id));
    assert [] + Pack(DOT, id) == Pack(DOT, id);
    AppendIs(Pack(DOT, id), DOTDOT, parent);
    PackUnpack(DOTDOT, parent);
    EntriesAppend(Pack(DOT, id), Pack(DOTDOT, parent));
  }

  /** A directory in order binds a name exactly if one of its entries does. */
  lemma NamesAt(r: FileRec, n: seq<byte>, w: Word)
    requires DirOk(r)
    ensures n in Names(r) && Names(r)[n] == w <==>
      exists k: nat :: 256 * k + 256 <= |r.bytes| && EntryAt(r.bytes, k) == Entry(n, w)
  {
    hide Bindings, Unpack, EntryAt;
    var es := Entries(r.bytes);
    if n in Names(r) {
      var k := BindingsIndex(es, n);
      BindingsAt(es, k);
      assert es[k] == EntryAt(r.bytes, k);
    }
    if k: nat :| 256 * k + 256 <= |r.bytes| && EntryAt(r.bytes, k) == Entry(n, w) {
      assert es[k] == EntryAt(r.bytes, k);
      BindingsAt(es, k);
    }
  }

  lemma NoEntries()
    ensures DirBytes([]) && Entries([]) == [] && Bindings(Entries([])) == map[]
  {}

  /** The four effects in bytes and numbers: names are cut to 251 bytes, link counts have
      16 bits, and a new directory binds "." and "..". */
  lemma CreateMeans(files: map<int, FileRec>, used: set<int>, files': map<int, FileRec>, used': set<int>, dir: int,
          name: seq<byte>, rec: FileRec, id: Word, roomParent: bool, roomNew: bool, ok: bool)
    requires CreateEffect(files, used, files', used', dir, name, rec, id, roomParent, roomNew, ok) && dir != id
    ensures dir in files && (ok <==> files[dir].isDir && roomParent && (rec.isDir ==> roomNew))
    ensures used' == used + (if files[dir].isDir then {id as int} else {})
    ensures !ok ==> files' == files
    ensures ok ==> files'.Keys == files.Keys + {id as int}
    ensures ok ==> forall f | f in files && f != dir && f != id :: files'[f] == files[f]
    ensures ok ==> files'[dir].isDir && files'[dir].links == files[dir].links
    ensures ok ==>
      var kept := if |name| <= 251 then name else name[..251];
      Names(files'[dir]) == if kept in Names(files[dir]) then Names(files[dir]) else Names(files[dir])[kept := id]
    ensures ok ==> files'[id].isDir == rec.isDir && files'[id].links == rec.links
    ensures ok && !rec.isDir ==> files'[id].bytes == rec.bytes
    ensures ok && rec.isDir && rec.bytes == [] ==>
      && Entries(files'[id].bytes) == [Entry([46], id), Entry([46, 46], dir % 0x1_0000_0000)]
      && Names(files'[id]) == map[[46] := id, [46, 46] := dir % 0x1_0000_0000]
  {
    hide Bindings, Entries, Unique, Short, Pack, DotEntries;
    DotNames(id, dir % U32);
    assert [] + DotEntries(id, dir % U32) == DotEntries(id, dir % U32);
  }

  lemma UnlinkMeans(files: map<int, FileRec>, files': map<int, FileRec>, dir: int, name: seq<byte>, r: Option<Word>)
    requires UnlinkEffect(files, files', dir, name, r)
    ensures dir in files && files'.Keys == files.Keys
    ensures r == if files[dir].isDir && name in Names(files[dir]) then Some(Names(files[dir])[name]) else None
    ensures r.None? ==> files' == files
    ensures r.Some? ==> Names(files'[dir]) == Names(files[dir]) - {name} && r.value in files
    ensures r.Some? ==> files'[r.value].links == (files[r.value].links + 0xFFFF) % 0x1_0000
    ensures r.Some? ==> forall f | f in files && f != dir ::
      files'[f].bytes == files[f].bytes && files'[f].isDir == files[f].isDir
    ensures r.Some? ==> forall f | f in files && f != r.value :: files'[f].links == files[f].links
  {
    hide Bindings, Entries, DirBytes;
  }

  lemma RemoveMeans(files: map<int, FileRec>, used: set<int>, files': map<int, FileRec>, used': set<int>, dir: int,
          name: seq<byte>, ok: bool)
    requires RemoveEffect(files, used, files', used', dir, name, ok)
    ensures dir in files && (ok <==> files[dir].isDir && name in Names(files[dir]))
    ensures ok ==> Names(files[dir])[name] in files
    ensures ok && files[Names(files[dir])[name]].links == 1 ==>
      && files'.Keys == files.Keys && (forall f | f in files && f != dir :: files'[f] == files[f])
      && Names(files'[dir]) == Names(files[dir]) - {name} && used' == used - {Names(files[dir])[name] as int}
    ensures !(ok && files[Names(files[dir])[name]].links == 1) ==> files' == files && used' == used
  {}

  lemma LinkMeans(files: map<int, FileRec>, files': map<int, FileRec>, dir: int, name: seq<byte>, id: Word,
          replace: bool, room: bool, atEnd: bool, ok: bool)
    requires LinkEffect(files, files', dir, name, id, replace, room, atEnd, ok) && id != dir
    ensures dir in files && id in files && files'.Keys == files.Keys
    ensures ok <==> files[dir].isDir && if name in Names(files[dir]) then replace
                                        else room && Searches(|files[dir].bytes|, atEnd)
    ensures ok ==>
      var kept, before := if |name| <= 251 then name else name[..251], Names(files[dir]);
      Names(files'[dir]) == if kept in before && name !in before then before else before[kept := id]
    ensures forall f | f in files && f != dir ::
      files'[f].bytes == files[f].bytes && files'[f].isDir == files[f].isDir
    ensures forall f | f in files && f != id :: files'[f].links == files[f].links
    ensures files'[id].links ==
      if ok || (files[dir].isDir && name !in Names(files[dir]) && Searches(|files[dir].bytes|, atEnd))
      then (files[id].links + 1) % 0x1_0000 else files[id].links
  {
    hide Bindings, Entries, DirBytes, Searches, Pack;
  }

  class FileTable {
    var files: map<int, FileRec>   // the inode area: records by inode number
    var used: set<int>             // the inode bitmap

    /** A new file system holds the root, which is its own parent. */
    constructor (root: Word)
      ensures files == map[root as int := FileRec(true, 1, DotEntries(root, root))] && used == {root as int}
    {
      files := map[root as int := FileRec(true, 1, DotEntries(root, root))];
      used := {root as int};
    }

    ghost predicate Known(dir: int)
      reads this
    {
      dir in files && (files[dir].isDir ==> DirBytes(files[dir].bytes))
    }

    /** Looks a name up. */
    method Find(dir: int, name: seq<byte>, atEnd: bool) returns (r: Option<Word>)
      requires Known(dir) && IsName(name)
      ensures r == if files[dir].isDir && name in Names(files[dir]) then Some(Names(files[dir])[name]) else None
    {
      hide Bindings, Entries, Unique, Short;
      var diskInode := files[dir];
      if !diskInode.isDir { return None; }
      var hit := Scan(diskInode.bytes, name, atEnd);
      r := if hit.Hit? then Some(hit.entry.inode) else None;
    }

    /** Makes a file or directory with a name; `id` is what the inode bitmap gives,
        `roomParent` whether the directory can grow and `roomNew` whether the new one
        can. The name is not looked up first. What fails leaves the inode number taken. */
    method Create(dir: int, name: seq<byte>, rec: FileRec, id: Word, roomParent: bool, roomNew: bool) returns (ok: bool)
      requires Known(dir) && IsName(name) && id !in used && id != dir
      requires files[dir].isDir ==> |files[dir].bytes| + ENTRY < I31
      modifies this
      ensures CreateEffect(old(files), old(used), files, used, dir, name, rec, id, roomParent, roomNew, ok)
      ensures ok <==> old(files[dir].isDir) && roomParent && (rec.isDir ==> roomNew)
      ensures ok ==> dir in files
      ensures ok ==>
        var kept, before := if |name| <= 251 then name else name[..251], old(Names(files[dir]));
        Names(files[dir]) == if kept in before then before else before[kept := id]
      ensures ok ==> id in files && files[id].isDir == rec.isDir && files[id].links == rec.links
      ensures ok && !rec.isDir ==> files[id].bytes == rec.bytes
      ensures ok && rec.isDir && rec.bytes == [] ==>
        && Entries(files[id].bytes) == [Entry([46], id), Entry([46, 46], dir % 0x1_0000_0000)]
        && Names(files[id]) == map[[46] := id, [46, 46] := dir % 0x1_0000_0000]
    {
      hide Bindings, Entries, Unique, Short, Pack, DotEntries;
      DotNames(id, dir % U32);
      assert [] + DotEntries(id, dir % U32) == DotEntries(id, dir % U32);
      var cur := files[dir];
      if !cur.isDir { return false; }
      used := used + {id};
      if !roomParent { return false; }
      AppendIs(cur.bytes, name, id);
      cur := cur.(bytes := cur.bytes + Pack(name, id));
      var new0 := rec;
      if new0.isDir {
        if !roomNew { return false; }
        new0 := new0.(bytes := new0.bytes + DotEntries(id, dir % U32));
      }
      files := files[id := new0];
      files := files[dir := cur];
      ok := true;
    }

    /** Takes a name out of the directory without releasing its inode, which loses a
        link. */
    method Unlink(dir: int, name: seq<byte>, atEnd: bool) returns (r: Option<Word>)
      requires Known(dir) && IsName(name)
      requires files[dir].isDir && name in Names(files[dir]) ==> Names(files[dir])[name] in files
      modifies this`files
      ensures UnlinkEffect(old(files), files, dir, name, r)
      ensures r ==
        if old(files[dir].isDir && name in Names(files[dir])) then Some(old(Names(files[dir])[name])) else None
      ensures r.None? ==> files == old(files)
      ensures r.Some? ==> dir in files && Names(files[dir]) == old(Names(files[dir])) - {name}
      ensures r.Some? ==>
        && r.value in old(files) && r.value in files
        && files[r.value].links == (old(files)[r.value].links + 0xFFFF) % 0x1_0000
    {
      hide Bindings, Entries, Unique, Short, CutEntry;
      var d := files[dir];
      if !d.isDir { return None; }
      var hit := Scan(d.bytes, name, atEnd);
      if !hit.Hit? { return None; }
      CutEntryIs(d.bytes, hit.i, hit.j);
      assert (hit.i * SLOTS + hit.j + 1) * ENTRY <= |d.bytes|;
      d := d.(bytes := CutEntry(d.bytes, TotalBlocks(|d.bytes|), hit.i, hit.j));
      files := files[dir := d];
      var raw := files[hit.entry.inode];
      raw := raw.(links := Down(raw.links));
      files := files[hit.entry.inode := raw];
      r := Some(hit.entry.inode);
    }

    /** Removes a name, and its inode when the link was the last. When it was not, the
        entry stays: nothing of the lowered link count is written. */
    method Remove(dir: int, name: seq<byte>, atEnd: bool) returns (ok: bool)
      requires Known(dir) && IsName(name)
      requires files[dir].isDir && name in Names(files[dir]) ==> Names(files[dir])[name] in files
      modifies this
      ensures RemoveEffect(old(files), old(used), files, used, dir, name, ok)
      ensures ok <==> old(files[dir].isDir && name in Names(files[dir]))
      ensures ok ==> var id := old(Names(files[dir])[name]);
        if old(files[Names(files[dir])[name]].links == 1)
        then used == old(used) - {id as int} && dir in files && Names(files[dir]) == old(Names(files[dir])) - {name}
        else used == old(used) && files == old(files)
    {
      hide Bindings, Entries, Unique, Short, CutEntry;
      var d := files[dir];
      if !d.isDir { return false; }
      var hit := Scan(d.bytes, name, atEnd);
      if !hit.Hit? { return false; }
      var del := files[hit.entry.inode];
      del := del.(links := Down(del.links));
      if del.links == 0 {
        CutEntryIs(d.bytes, hit.i, hit.j);
        assert (hit.i * SLOTS + hit.j + 1) * ENTRY <= |d.bytes|;
        d := d.(bytes := CutEntry(d.bytes, TotalBlocks(|d.bytes|), hit.i, hit.j));
        files := files[dir := d];
        used := used - {hit.entry.inode as int};
      } else {
        files := files[dir := d];
      }
      ok := true;
    }

    /** Gives an inode a further name. An existing name is redirected if `replace`; any
        other is appended as far as an entry can keep it, which makes a second entry of
        the same name if what is kept is there already. */
    method Link(dir: int, name: seq<byte>, id: Word, replace: bool, room: bool, atEnd: bool) returns (ok: bool)
      requires Known(dir) && IsName(name) && id in files && (files[dir].isDir ==> |files[dir].bytes| + ENTRY < I31)
      modifies this`files
      ensures LinkEffect(old(files), files, dir, name, id, replace, room, atEnd, ok)
      ensures ok <==>
        old(files[dir].isDir) && if name in old(Names(files[dir])) then replace
                                 else room && Searches(old(|files[dir].bytes|), atEnd)
      ensures ok ==> dir in files
      ensures ok ==>
        var kept, before := if |name| <= 251 then name else name[..251], old(Names(files[dir]));
        Names(files[dir]) == if kept in before && name !in before then before else before[kept := id]
      ensures ok && id != dir ==> id in files && files[id].links == (old(files[id].links) + 1) % 0x1_0000
    {
      hide Bindings, Entries, Unique, Short, Pack, SetEntry, DataBlocks, Searches;
      var d := files[dir];
      if !d.isDir { return false; }
      var hit := Scan(d.bytes, name, atEnd);
      match hit {
        case Broken => return false;
        case Hit(i, j, entry) =>
          ShortName(d.bytes, name);
          if !replace { return false; }
          var k := i * SLOTS + j;
          SetEntryIs(d.bytes, k, name, id);
          files := files[id := files[id].(links := Up(files[id].links))];
          d := d.(bytes := SetEntry(d.bytes, k, Pack(entry.name, id)));
          files := files[dir := d];
        case Miss =>
          files := files[id := files[id].(links := Up(files[id].links))];
          if !room { return false; }
          AppendIs(d.bytes, name, id);
          d := d.(bytes := d.bytes + Pack(name, id));
          files := files[dir := d];
      }
      ok := true;
    }
  }
}
