/** The entry points that change the name space, with the path cache in front. */
module Vfs {
  import opened Blocks
  import Tree
  import opened FileSize
  import opened Paths
  import opened PathCache
  import opened DirEntries
  import opened DirScan
  import opened Files
  import opened Namespace
  import opened Moves
  import opened Steps
  import opened Resolver
  import opened Wrappers

  datatype Status = Done | NoEntry | NotDir | NotEmpty

  /** A path as the kernel passes it: absolute, and naming something in a directory. */
  ghost predicate IsPath(path: Str) {
    |path| > 1 && path[0] == SLASH && path[|path| - 1] != SLASH && Proper(PathComps(path))
  }

  /** The directory part and the last name of a path. */
  ghost function DirComps(path: Str): Comps
    requires IsPath(path)
  {
    PartsSplit(WithoutEndSlash(path)[1..]);
    PathComps(path)[..|PathComps(path)| - 1]
  }

  ghost function LastName(path: Str): Str
    requires IsPath(path)
  {
    PartsSplit(WithoutEndSlash(path)[1..]);
    PathComps(path)[|PathComps(path)| - 1]
  }

  lemma PathSplit(path: Str)
    requires IsPath(path)
    ensures DirComps(path) + [LastName(path)] == PathComps(path)
    ensures NoDots(DirComps(path)) && Proper(DirComps(path)) && !Dot(LastName(path)) && IsName(LastName(path))
    ensures WithoutEndSlash(path)[1..] == Join(PathComps(path)) && AllPlain(PathComps(path))
    ensures |path| > 1 && path[0] == SLASH && WithoutEndSlash(path) == path
  {
    hide Parts, Join, Proper, NoDots, Dot, IsName;
    PartsSplit(WithoutEndSlash(path)[1..]);
    ProperFront(PathComps(path));
  }

  /** Every list of names but "." and ".." is the components of a path. */
  lemma PathOf(cs: Comps)
    requires |cs| > 0
    requires forall i | 0 <= i < |cs| ::
      |cs[i]| > 0 && 0 !in cs[i] && 47 !in cs[i] && cs[i] != [46] && cs[i] != [46, 46]
    ensures IsPath([47] + Join(cs)) && PathComps([47] + Join(cs)) == cs
    ensures DirComps([47] + Join(cs)) == cs[..|cs| - 1] && LastName([47] + Join(cs)) == cs[|cs| - 1]
  {
    hide Join, Parts, PathComps;
    JoinEnds(cs);
    CompsIs(Join(cs));
    PartsJoin(cs);
  }

  lemma JoinEnds(cs: Comps)
    requires |cs| > 0 && |cs[|cs| - 1]| > 0 && 47 !in cs[|cs| - 1]
    ensures |Join(cs)| > 0 && Join(cs)[|Join(cs)| - 1] != 47
  {
    var c := cs[|cs| - 1];
    assert Join(cs)[|Join(cs)| - |c|..] == c;
    assert c[|c| - 1] in c;
  }

  lemma ProperFront(cs: Comps)
    requires |cs| > 0 && Proper(cs)
    ensures Proper(cs[..|cs| - 1]) && NoDots(cs[..|cs| - 1]) && !Dot(cs[|cs| - 1]) && IsName(cs[|cs| - 1])
  {}

  /** The last slash of a string that has one. */
  function LastSlashAt(s: Str): (p: nat)
    requires SLASH in s
    ensures p < |s| && s[p] == SLASH && forall k | p < k < |s| :: s[k] != SLASH
  {
    if s[|s| - 1] == SLASH then |s| - 1 else LastSlashAt(s[..|s| - 1])
  }

  method SplitFromLastSlash(path: Str) returns (parent: Str, child: Str)
    ensures path == parent + child && 47 !in child && (parent == [] || parent[|parent| - 1] == 47)
    ensures IsPath(path) ==> child == LastName(path) && ProperPath(parent)
    ensures IsPath(path) ==> |parent| > 0 && parent[0] == SLASH && PathComps(parent) == DirComps(path)
  {
    if SLASH !in path { return [], path; }
    var pos := LastSlashAt(path);
    parent, child := path[..pos + 1], path[pos + 1..];
    if IsPath(path) { SplitParts(path, pos); }
  }

  lemma CutAt(path: Str, pos: nat, front: Str, n: Str)
    requires pos < |path| && path[pos] == SLASH && forall k | pos < k < |path| :: path[k] != SLASH
    requires path == front + [SLASH] + n && Plain(n)
    ensures path[..pos] == front && path[pos + 1..] == n
  {
    assert path == path[..pos] + [SLASH] + path[pos + 1..];
    SameTail(front, n, path[..pos], path[pos + 1..]);
  }

  lemma SplitParts(path: Str, pos: nat)
    requires IsPath(path) && pos < |path| && path[pos] == SLASH && forall k | pos < k < |path| :: path[k] != SLASH
    ensures path[pos + 1..] == LastName(path) && PathComps(path[..pos + 1]) == DirComps(path)
  {
    hide Parts, Proper, AllPlain, Join, Plain;
    var cs, n, q := PathComps(path), LastName(path), DirComps(path);
    PathSplit(path);
    LastPlain(cs);
    JoinBack(q, n);
    var front := if |q| == 0 then [] else [SLASH] + Join(q);
    assert path == [SLASH] + Join(cs);
    assert path == front + [SLASH] + n;
    CutAt(path, pos, front, n);
    assert path[..pos + 1] == front + [SLASH];
    if |q| > 0 {
      assert WithoutEndSlash(front + [SLASH])[1..] == Join(q);
      PlainFront(cs);
      PartsJoin(q);
    }
  }

  lemma LastPlain(cs: Comps)
    requires |cs| > 0 && AllPlain(cs)
    ensures Plain(cs[|cs| - 1])
  {}

  lemma PlainFront(cs: Comps)
    requires |cs| > 0 && AllPlain(cs)
    ensures AllPlain(cs[..|cs| - 1])
  {}

  /** A new inode is no directory on the way. */
  lemma NotOnPath(files: map<int, FileRec>, used: set<int>, root: Word, q: Comps, id: Word)
    requires NsOk(files, used, root) && id as int !in used && NoDots(q) && Walk(files, root, q).Some?
    ensures Walk(files, root, q).value != id
  {}

  /** What Create leaves is what the invariants ask for. */
  lemma MakeKeeps(files: map<int, FileRec>, files': map<int, FileRec>, used: set<int>, root: Word,
          pairs: set<(Str, Word)>, q: Comps, n: Str, id: Word, isDir: bool)
    requires TreeOk(files, used, root) && PairsRight(files, root, pairs) && LeadsToDir(files, root, q) && !Dot(n)
    requires id as int !in used
    requires Created(files, files', DirAt(files, root, q), n, id, isDir)
    requires Lookup(files, DirAt(files, root, q), n).None?
    ensures TreeOk(files', used + {id as int}, root) && PairsRight(files', root, pairs)
    ensures PathMade(files, files', root, q + [n], id)
    ensures OnlyDirs(files, files', {DirAt(files, root, q), id as int})
  {
    hide Walk, Lookup, Single, PairsRight, OneLink, TableOk, Unreachable, Names, DirBytes;
    CreatedMade(files, files', used, root, DirAt(files, root, q), n, id, isDir);
    FreeUnreachable(files, used, root, id);
    MakePaths(files, files', used, root, q, n, id);
    CoherentAdd(files, files', root, pairs, DirAt(files, root, q), n, id);
  }

  /** A name that was there twice over changes no path. */
  lemma MakeDoubles(files: map<int, FileRec>, files': map<int, FileRec>, used: set<int>, root: Word, d: int, id: Word)
    requires NsOk(files, used, root) && id as int !in used && d in files && d != id && files[d].isDir
    requires files'.Keys == files.Keys + {id as int, d}
    requires forall f | f in files && f != d && f != id :: files'[f] == files[f]
    requires files'[d].isDir && Names(files'[d]) == Names(files[d])
    ensures PathsSame(files, files', root)
  {
    hide Names, TableOk, Single;
    SamePaths(files, files', used, root, id);
  }

  /** The table after Create: one more entry, and one more inode. */
  ghost predicate NewEntry(files: map<int, FileRec>, files': map<int, FileRec>, d: Word, n: Str, id: Word,
          isDir: bool)
  {
    && d != id && d in files && files[d].isDir && files'.Keys == files.Keys + {id as int, d as int}
    && (forall f | f in files && f != d && f != id :: files'[f] == files[f])
    && files'[d].isDir && files'[d].links == files[d].links && (DirBytes(files'[d].bytes) <==> n !in Names(files[d]))
    && Names(files'[d]) == (if n in Names(files[d]) then Names(files[d]) else Names(files[d])[n := id])
    && files'[id] == FileRec(isDir, 1, if isDir then DotEntries(id, d) else [])
  }

  lemma MakeDone(f0: map<int, FileRec>, f1: map<int, FileRec>, used: set<int>, root: Word, pairs: set<(Str, Word)>,
          path: Str, id: Word, isDir: bool)
    requires TreeOk(f0, used, root) && PairsRight(f0, root, pairs) && IsPath(path) && id as int !in used
    requires LeadsToDir(f0, root, DirComps(path))
    requires NewEntry(f0, f1, DirOf(f0, root, path), Trunc(LastName(path)), id, isDir)
    ensures MadeIf(f0, used, f1, used + {id as int}, root, path, id, true)
    ensures NameTaken(f0, root, path) ==> !TableOk(f1, root)
    ensures !NameTaken(f0, root, path) ==> TreeOk(f1, used + {id as int}, root) && PairsRight(f1, root, pairs)
  {
    hide Walk, Lookup, Names, DirBytes, DotEntries, Single, OneLink, PathComps, Parts, Proper, PairsRight, Trunc,
      PathMade, PathsSame;
    var d, n := DirOf(f0, root, path), Trunc(LastName(path));
    PathSplit(path);
    TruncDot(LastName(path));
    AbsentName(f0, d, n);
    if NameTaken(f0, root, path) {
      MakeDoubles(f0, f1, used, root, d, id);
    } else {
      MakeKeeps(f0, f1, used, root, pairs, DirComps(path), n, id, isDir);
    }
  }

  lemma NotMade(files: map<int, FileRec>, used: set<int>, root: Word, path: Str, id: Word)
    requires IsPath(path)
    ensures MadeIf(files, used, files, if LeadsToDir(files, root, DirComps(path)) then used + {id as int}
      else used, root, path, id, false)
  {}

  lemma AbsentName(files: map<int, FileRec>, d: int, n: Str)
    requires d in files && files[d].isDir
    ensures Lookup(files, d, n).None? <==> n !in Names(files[d])
  {}

  /** Where a directory is, if the path is. */
  ghost function DirOf(files: map<int, FileRec>, root: Word, path: Str): int
    requires IsPath(path) && LeadsToDir(files, root, DirComps(path))
  {
    DirAt(files, root, DirComps(path))
  }

  /** What an entry keeps of the last name of a path is there already. */
  ghost predicate NameTaken(files: map<int, FileRec>, root: Word, path: Str)
    requires IsPath(path)
  {
    LeadsToDir(files, root, DirComps(path)) && Lookup(files, DirOf(files, root, path), Trunc(LastName(path))).Some?
  }

  /** The components of a path that was made: entries keep 251 bytes of a name. */
  ghost function KeptComps(path: Str): Comps
    requires IsPath(path)
  {
    DirComps(path) + [Trunc(LastName(path))]
  }

  /** The tables after create or mkdir. A name that was there is there twice, and the
      new inode has no path; the inode number is in use even if nothing was made. */
  ghost predicate MadeIf(files: map<int, FileRec>, used: set<int>, files': map<int, FileRec>, used': set<int>,
          root: Word, path: Str, id: Word, made: bool)
    requires IsPath(path)
  {
    && used' == (if LeadsToDir(files, root, DirComps(path)) then used + {id as int} else used)
    && (!made ==> files' == files)
    && (made ==> LeadsToDir(files, root, DirComps(path)))
    && (made ==> OnlyDirs(files, files', {DirOf(files, root, path), id as int}))
    && (made && !NameTaken(files, root, path) ==> PathMade(files, files', root, KeptComps(path), id))
    && (made && NameTaken(files, root, path) ==> !TableOk(files', root) && PathsSame(files, files', root))
  }

  /** In terms of paths: the new one, with at most 251 bytes of its last name, leads to the
      new inode, nothing is below it, and all others lead where they led - unless it was
      there, when none changes. */
  lemma MadeMeans(files: map<int, FileRec>, used: set<int>, files': map<int, FileRec>, used': set<int>, root: Word,
          path: Str, id: Word, made: bool)
    requires IsPath(path) && MadeIf(files, used, files', used', root, path, id, made)
    ensures used' == used + if LeadsToDir(files, root, DirComps(path)) then {id as int} else {}
    ensures !made ==> files' == files
    ensures made ==>
      var n := LastName(path); var p := DirComps(path) + [if |n| <= 251 then n else n[..251]];
      && LeadsToDir(files, root, DirComps(path))
      && forall cs | NoDots(cs) ::
           Walk(files', root, cs) == if Walk(files, root, p).Some? then Walk(files, root, cs)
                                     else if cs == p then Some(id) else if p <= cs then None
                                     else Walk(files, root, cs)
    ensures made ==> forall f | f in files && f != Walk(files, root, DirComps(path)).value && f != id ::
      f in files' && files'[f] == files[f]
  {
    hide Walk, Lookup, PathComps, NoDots;
    var n := Trunc(LastName(path));
    if LeadsToDir(files, root, DirComps(path)) {
      WalkStep(files, root, DirComps(path) + [n], DirComps(path), n);
      assert NameTaken(files, root, path) <==> Walk(files, root, DirComps(path) + [n]).Some?;
    }
  }

  /** A short name is kept whole. */
  lemma KeptWhole(path: Str)
    requires IsPath(path) && |LastName(path)| <= 251
    ensures KeptComps(path) == PathComps(path) && Trunc(LastName(path)) == LastName(path)
  {
    hide PathComps, Parts;
    PathSplit(path);
  }

  lemma ProperNoDots(path: Str)
    requires IsPath(path)
    ensures NoDots(PathComps(path))
  {}

  lemma DotsSize(id: Word, dir: Word)
    ensures |DotEntries(id, dir)| == 512
  {}

  lemma TruncDot(n: Str)
    requires !Dot(n)
    ensures !Dot(Trunc(n))
  {}

  class Vfs {
    const resolver: PathResolver

    /** A new file system. */
    constructor (root: Word, maxCache: nat)
      ensures Ok() && fresh(resolver) && fresh(resolver.fs) && fresh(resolver.cache)
      ensures resolver.fs.files == map[root as int := FileRec(true, 1, DotEntries(root, root))]
      ensures resolver.root == root && resolver.fs.used == {root as int}
      ensures Names(resolver.fs.files[root]) == map[[46] := root, [46, 46] := root]
    {
      var fs := new FileTable(root);
      resolver := new PathResolver(fs, root, maxCache);
      FreshTree(root);
      DotNames(root, root);
    }

    /** The invariant of every run: the name space is a tree of inodes with one link
        each, and every cached path leads where the cache says. */
    ghost predicate Ok()
      reads resolver, resolver.fs, resolver.cache
    {
      TreeOk(resolver.fs.files, resolver.fs.used, resolver.root) && resolver.Good()
    }

    /** Resolution through the cache is resolution, in every reachable state. */
    method Resolve(path: Str, atEnd: bool) returns (r: Option<Word>)
      requires Ok() && ProperPath(path)
      modifies resolver.cache
      ensures Ok() &&
        r == if |path| == 0 || path[0] != 47 then None else Walk(resolver.fs.files, resolver.root, PathComps(path))
    {
      hide Single, TableOk, OneLink;
      r := resolver.Resolve(path, atEnd);
    }

    /** The first steps of every entry point: the directory of a path and its last name. */
    method Parent(path: Str, atEnd: bool) returns (dir: Option<Word>, name: Str)
      requires Ok() && IsPath(path)
      modifies resolver.cache
      ensures Ok() && name == LastName(path) && dir == Walk(resolver.fs.files, resolver.root, DirComps(path))
      ensures dir.Some? ==> resolver.fs.Known(dir.value)
    {
      hide Single, OneLink, Proper;
      PathSplit(path);
      var parent: Str;
      parent, name := SplitFromLastSlash(path);
      dir := Resolve(parent, atEnd);
      if dir.Some? { WalkClosed(resolver.fs.files, resolver.root, DirComps(path)); }
    }

    /** create: the status says only whether the directory was found. */
    method Create(path: Str, id: Word, room: bool, atEnd: bool) returns (s: Status, ghost made: bool)
      requires Ok() && IsPath(path) && id as int !in resolver.fs.used
      requires forall d | d in resolver.fs.files && resolver.fs.files[d].isDir ::
        |resolver.fs.files[d].bytes| + 256 < 0x8000_0000
      modifies resolver.fs, resolver.cache
      ensures s == if old(Walk(resolver.fs.files, resolver.root, DirComps(path))).None? then NoEntry else Done
      ensures made <==> old(LeadsToDir(resolver.fs.files, resolver.root, DirComps(path))) && room
      ensures MadeIf(old(resolver.fs.files), old(resolver.fs.used), resolver.fs.files, resolver.fs.used,
        resolver.root, path, id, made)
      ensures made ==>
        var files := resolver.fs.files;
        id in files && !files[id].isDir && files[id].bytes == [] && files[id].links == 1
      ensures made ==>
        var n, f0 := LastName(path), old(resolver.fs.files);
        var p := DirComps(path) + [if |n| <= 251 then n else n[..251]];
        forall cs | NoDots(cs) ::
          Walk(resolver.fs.files, resolver.root, cs) == if Walk(f0, resolver.root, p).Some?
                                                        then Walk(f0, resolver.root, cs)
                                                        else if cs == p then Some(id) else if p <= cs then None
                                                        else Walk(f0, resolver.root, cs)
      ensures Ok() <==> !(made && old(NameTaken(resolver.fs.files, resolver.root, path)))
    {
      hide Walk, NameTaken, MadeIf, PathComps, LeadsToDir;
      s, made := Make(path, false, id, room, true, atEnd);
      MadeMeans(old(resolver.fs.files), old(resolver.fs.used), resolver.fs.files, resolver.fs.used, resolver.root,
        path, id, made);
    }

    /** mkdir: the new directory needs a block of its own. */
    method Mkdir(path: Str, id: Word, roomParent: bool, roomNew: bool, atEnd: bool)
      returns (s: Status, ghost made: bool)
      requires Ok() && IsPath(path) && id as int !in resolver.fs.used
      requires forall d | d in resolver.fs.files && resolver.fs.files[d].isDir ::
        |resolver.fs.files[d].bytes| + 256 < 0x8000_0000
      modifies resolver.fs, resolver.cache
      ensures s == if old(Walk(resolver.fs.files, resolver.root, DirComps(path))).None? then NoEntry else Done
      ensures made <==> old(LeadsToDir(resolver.fs.files, resolver.root, DirComps(path))) && roomParent && roomNew
      ensures MadeIf(old(resolver.fs.files), old(resolver.fs.used), resolver.fs.files, resolver.fs.used,
        resolver.root, path, id, made)
      ensures made ==>
        var files, dir := resolver.fs.files, old(Walk(resolver.fs.files, resolver.root, DirComps(path))).value;
        && id in files && files[id].isDir && files[id].links == 1 && |files[id].bytes| == 512
        && Names(files[id]) == map[[46] := id, [46, 46] := dir]
      ensures made ==>
        var n, f0 := LastName(path), old(resolver.fs.files);
        var p := DirComps(path) + [if |n| <= 251 then n else n[..251]];
        forall cs | NoDots(cs) ::
          Walk(resolver.fs.files, resolver.root, cs) == if Walk(f0, resolver.root, p).Some?
                                                        then Walk(f0, resolver.root, cs)
                                                        else if cs == p then Some(id) else if p <= cs then None
                                                        else Walk(f0, resolver.root, cs)
      ensures Ok() <==> !(made && old(NameTaken(resolver.fs.files, resolver.root, path)))
    {
      hide Walk, NameTaken, MadeIf, PathComps, DotEntries, Names, Bindings, Entries;
      s, made := Make(path, true, id, roomParent, roomNew, atEnd);
      MadeMeans(old(resolver.fs.files), old(resolver.fs.used), resolver.fs.files, resolver.fs.used, resolver.root,
        path, id, made);
      if made {
        ghost var dir := old(Walk(resolver.fs.files, resolver.root, DirComps(path))).value;
        DotNames(id, dir);
        NamesAre(resolver.fs.files[id]);
        DotsSize(id, dir);
      }
    }

    /** What create and mkdir do alike. `id` is what the inode bitmap gives. Neither looks
        whether the name exists, nor whether it could be made. */
    method Make(path: Str, isDir: bool, id: Word, roomParent: bool, roomNew: bool, atEnd: bool)
      returns (s: Status, ghost made: bool)
      requires Ok() && IsPath(path) && id as int !in resolver.fs.used && RoomInSize(resolver.fs.files)
      modifies resolver.fs, resolver.cache
      ensures s == if old(Walk(resolver.fs.files, resolver.root, DirComps(path))).None? then NoEntry else Done
      ensures made <==>
        old(LeadsToDir(resolver.fs.files, resolver.root, DirComps(path))) && roomParent && (isDir ==> roomNew)
      ensures MadeIf(old(resolver.fs.files), old(resolver.fs.used), resolver.fs.files, resolver.fs.used,
        resolver.root, path, id, made)
      ensures made ==>
        var dir := old(Walk(resolver.fs.files, resolver.root, DirComps(path)));
        && dir.Some? && id in resolver.fs.files
        && resolver.fs.files[id] == FileRec(isDir, 1, if isDir then DotEntries(id, dir.value) else [])
      ensures Ok() <==> !(made && old(NameTaken(resolver.fs.files, resolver.root, path)))
    {
      hide Lookup, Walk, Names, DirBytes, DotEntries, Single, OneLink, Proper, PathComps, Parts, PairsRight,
        Unreachable, Trunc, MadeIf, NameTaken, Pack;
      var fs := resolver.fs;
      var dir, name := Parent(path, atEnd);
      ghost var root, before, used := resolver.root, fs.files, fs.used;
      if dir.None? {
        NotMade(before, used, root, path, id);
        return NoEntry, false;
      }
      PathSplit(path);
      NotOnPath(before, used, root, DirComps(path), id);
      var ok := fs.Create(dir.value, name, FileRec(isDir, 1, []), id, roomParent, roomNew);
      s, made := Done, ok;
      if ok {
        assert [] + DotEntries(id, dir.value) == DotEntries(id, dir.value);
        MakeDone(before, fs.files, used, root, Pairs(resolver.cache.items), path, id, isDir);
      } else {
        NotMade(before, used, root, path, id);
      }
    }

    /** unlink */
    method Unlink(path: Str, atEnd: bool) returns (s: Status)
      requires Ok() && IsPath(path)
      modifies resolver.fs, resolver.cache
      ensures Ok() && (s == Done || s == NoEntry)
      ensures s == NoEntry <==> old(Walk(resolver.fs.files, resolver.root, PathComps(path))).None?
      ensures s == NoEntry ==> resolver.fs.files == old(resolver.fs.files) && resolver.fs.used == old(resolver.fs.used)
      ensures s == Done ==>
        Dropped(old(resolver.fs.files), old(resolver.fs.used), resolver.fs.files, resolver.fs.used, resolver.root, path)
      ensures s == Done ==> forall cs | NoDots(cs) ::
        Walk(resolver.fs.files, resolver.root, cs) ==
          if PathComps(path) <= cs then None else Walk(old(resolver.fs.files), resolver.root, cs)
      ensures s == Done ==>
        resolver.fs.used ==
          old(resolver.fs.used) - {old(Walk(resolver.fs.files, resolver.root, PathComps(path))).value as int}
    {
      hide Lookup, Walk, Names, DirBytes, Single, OneLink, Proper, PathComps, Parts, PairsRight, TableOk, Dropped;
      var dir, name := Parent(path, atEnd);
      ChildWalk(resolver.fs.files, resolver.root, path);
      if dir.None? { return NoEntry; }
      var child := FindChild(path, dir.value, name, atEnd);
      if child.None? { return NoEntry; }
      Drop(path, dir.value, name, child.value, atEnd);
      s := Done;
    }

    /** rmdir */
    method Rmdir(path: Str, atEnd: bool) returns (s: Status)
      requires Ok() && IsPath(path)
      modifies resolver.fs, resolver.cache
      ensures Ok()
      ensures s == NoEntry <==> old(Walk(resolver.fs.files, resolver.root, PathComps(path))).None?
      ensures s != Done ==> resolver.fs.files == old(resolver.fs.files) && resolver.fs.used == old(resolver.fs.used)
      ensures s != NoEntry ==>
        var files, id := old(resolver.fs.files), old(Walk(resolver.fs.files, resolver.root, PathComps(path))).value;
        && id in files && (s == NotDir <==> !files[id].isDir)
        && (s == NotEmpty <==>
            && files[id].isDir
            && (|files[id].bytes| > 4096 || exists n | n in Names(files[id]) :: n != [] && n != [46] && n != [46, 46]))
      ensures s == Done ==>
        Dropped(old(resolver.fs.files), old(resolver.fs.used), resolver.fs.files, resolver.fs.used, resolver.root, path)
      ensures s == Done ==> forall cs | NoDots(cs) ::
        Walk(resolver.fs.files, resolver.root, cs) ==
          if PathComps(path) <= cs then None else Walk(old(resolver.fs.files), resolver.root, cs)
      ensures s == Done ==>
        resolver.fs.used ==
          old(resolver.fs.used) - {old(Walk(resolver.fs.files, resolver.root, PathComps(path))).value as int}
      ensures s == Done ==>
        forall cs | Proper(cs) && PathComps(path) < cs :: old(Walk(resolver.fs.files, resolver.root, cs)).None?
    {
      hide Lookup, Walk, Names, DirBytes, Single, OneLink, Proper, PathComps, Parts, PairsRight, TableOk, Dropped,
        OnlyDots;
      var dir, name := Parent(path, atEnd);
      ChildWalk(resolver.fs.files, resolver.root, path);
      if dir.None? { return NoEntry; }
      var child := FindChild(path, dir.value, name, atEnd);
      if child.None? { return NoEntry; }
      WalkClosed(resolver.fs.files, resolver.root, PathComps(path));
      DirOkOf(resolver.fs.files, resolver.root, child.value);
      var rec := resolver.fs.files[child.value];
      if !rec.isDir { return NotDir; }
      OnlyDotsIs(rec);
      var empty := IsEmptyDir(rec, atEnd);
      if !empty { return NotEmpty; }
      NothingBelow(resolver.fs.files, resolver.root, PathComps(path));
      Drop(path, dir.value, name, child.value, atEnd);
      s := Done;
    }

    /** A directory that mkdir made is empty for rmdir, and when it is removed every path
        leads where it led at first, and the same inodes are in use. */
    method MkdirThenRmdir(path: Str, id: Word, atEnd: bool) returns (s: Status)
      requires Ok() && IsPath(path) && id as int !in resolver.fs.used
      requires forall d | d in resolver.fs.files && resolver.fs.files[d].isDir ::
        |resolver.fs.files[d].bytes| + 256 < 0x8000_0000
      requires LeadsToDir(resolver.fs.files, resolver.root, DirComps(path)) && |LastName(path)| <= 251
      requires Walk(resolver.fs.files, resolver.root, PathComps(path)).None?
      modifies resolver.fs, resolver.cache
      ensures Ok() && s == Done && resolver.fs.used == old(resolver.fs.used)
      ensures forall cs | NoDots(cs) ::
        Walk(resolver.fs.files, resolver.root, cs) == Walk(old(resolver.fs.files), resolver.root, cs)
    {
      hide Walk, MadeIf, PathComps, Names, Lookup, Single, OneLink, Parts, Proper, TableOk, Dropped;
      ghost var files, root, p := resolver.fs.files, resolver.root, PathComps(path);
      PathSplit(path);
      ProperNoDots(path);
      WalkStep(files, root, p, DirComps(path), LastName(path));
      KeptWhole(path);
      ghost var made;
      s, made := Mkdir(path, id, true, true, atEnd);
      MadeMeans(files, old(resolver.fs.used), resolver.fs.files, resolver.fs.used, root, path, id, made);
      assert Walk(resolver.fs.files, root, p) == Some(id);
      s := Rmdir(path, atEnd);
      forall cs | NoDots(cs)
        ensures Walk(resolver.fs.files, root, cs) == Walk(files, root, cs)
      {
        if p <= cs { WalkBeyond(files, root, cs, p); }
      }
    }

    /** find in the directory of a path: the path is there if the name is. */
    method FindChild(path: Str, dir: Word, name: Str, atEnd: bool) returns (child: Option<Word>)
      requires Ok() && IsPath(path) && Walk(resolver.fs.files, resolver.root, DirComps(path)) == Some(dir)
      requires name == LastName(path)
      requires resolver.fs.Known(dir)
      ensures child == Walk(resolver.fs.files, resolver.root, PathComps(path))
      ensures child.Some? ==>
        Lookup(resolver.fs.files, dir, name) == child && LeadsToDir(resolver.fs.files, resolver.root, DirComps(path))
    {
      hide Names, DirBytes, Single, OneLink, Proper, PathComps, Parts, Walk, PairsRight;
      PathSplit(path);
      ChildWalk(resolver.fs.files, resolver.root, path);
      child := resolver.fs.Find(dir, name, atEnd);
    }

    /** remove and removePrefix, the last steps of unlink and rmdir. */
    method Drop(path: Str, dir: Word, name: Str, ghost id: Word, atEnd: bool)
      requires Ok() && IsPath(path) && name == LastName(path)
      requires LeadsToDir(resolver.fs.files, resolver.root, DirComps(path))
      requires DirAt(resolver.fs.files, resolver.root, DirComps(path)) == dir
      requires Lookup(resolver.fs.files, dir, name) == Some(id)
      modifies resolver.fs, resolver.cache
      ensures Ok() && Dropped(old(resolver.fs.files), old(resolver.fs.used), resolver.fs.files, resolver.fs.used,
        resolver.root, path)
      ensures forall cs | NoDots(cs) ::
        Walk(resolver.fs.files, resolver.root, cs) ==
          if PathComps(path) <= cs then None else Walk(old(resolver.fs.files), resolver.root, cs)
      ensures resolver.fs.used ==
        old(resolver.fs.used) - {Walk(old(resolver.fs.files), resolver.root, PathComps(path)).value as int}
    {
      hide Walk, Single, Proper, PathComps, Parts, PairsRight, DirBytes, Names, PathGone;
      PathSplit(path);
      ghost var before, used, pairs := resolver.fs.files, resolver.fs.used, Pairs(resolver.cache.items);
      var ok := resolver.fs.Remove(dir, name, atEnd);
      assert ok;
      TakeKeeps(before, resolver.fs.files, used, resolver.root, pairs, DirComps(path), name, id);
      WalkStep(before, resolver.root, PathComps(path), DirComps(path), name);
      assert WithoutEndSlash(path) == path;
      DroppedMeans(before, used, resolver.fs.files, resolver.fs.used, resolver.root, path);
      resolver.RemovePrefix(path);
    }

    /** The part of an exchange before the last link: unlinks the new name and links its
        inode under the old one, which is free. */
    method PutBack(dir1: Word, name1: Str, dir2: Word, name2: Str, room: bool, atEnd: bool)
      returns (ghost other: Word, ghost back: bool, ghost between: map<int, FileRec>)
      requires TableOk(resolver.fs.files, resolver.root) && RoomInSize(resolver.fs.files)
      requires dir1 in resolver.fs.files && DirOk(resolver.fs.files[dir1])
      requires dir2 in resolver.fs.files && DirOk(resolver.fs.files[dir2])
      requires IsName(name1) && IsName(name2) && |name1| <= NAME_MAX && (dir1, name1) != (dir2, name2)
      requires name1 !in Names(resolver.fs.files[dir1]) && name2 in Names(resolver.fs.files[dir2])
      requires Names(resolver.fs.files[dir2])[name2] !in {dir1, dir2}
      modifies resolver.fs
      ensures other == old(Names(resolver.fs.files[dir2]))[name2] && resolver.fs.used == old(resolver.fs.used)
      ensures NameUnlinked(old(resolver.fs.files), between, dir2, name2, other)
      ensures Tried(between, resolver.fs.files, dir1, name1, other, back)
      ensures back <==> room && dir1 in between && Searches(|between[dir1].bytes|, atEnd)
      ensures TableOk(resolver.fs.files, resolver.root) && resolver.fs.files.Keys == old(resolver.fs.files).Keys
      ensures dir2 in resolver.fs.files && DirOk(resolver.fs.files[dir2]) && name2 !in Names(resolver.fs.files[dir2])
      ensures dir2 in between && |resolver.fs.files[dir2].bytes| + ENTRY < I31
      ensures |resolver.fs.files[dir2].bytes| == |between[dir2].bytes| + if back && dir1 == dir2 then ENTRY else 0
    {
      hide Lookup, Names, DirBytes, TableOk, Searches;
      var fs := resolver.fs;
      ghost var f1 := fs.files;
      KnownName(f1, resolver.root, dir2, name2);
      var w := fs.Unlink(dir2, name2, atEnd);
      between := fs.files;
      UnlinkLeaves(f1, between, resolver.root, dir2, name2, w.value, dir1);
      UnlinkLeaves(f1, between, resolver.root, dir2, name2, w.value, dir2);
      var ok := fs.Link(dir1, name1, w.value, false, room, atEnd);
      LinkLeaves(between, fs.files, resolver.root, dir1, name1, w.value, ok, dir2);
      other, back := w.value, ok;
    }

    /** An exchange from its second step on, when the old name is unlinked. */
    method Exchange(dir1: Word, name1: Str, moved: Word, dir2: Word, name2: Str, replace: bool, room1: bool,
            atEnd1: bool, room2: bool, atEnd2: bool, ghost f0: map<int, FileRec>)
      returns (ghost other: Word, ghost back: bool, ghost linked: bool, ghost f2: map<int, FileRec>, ghost f3: map<int,
              FileRec>)
      requires TableOk(resolver.fs.files, resolver.root) && RoomInSize(resolver.fs.files)
      requires dir1 in resolver.fs.files && DirOk(resolver.fs.files[dir1])
      requires dir2 in resolver.fs.files && DirOk(resolver.fs.files[dir2])
      requires IsName(name1) && IsName(name2) && |name1| <= NAME_MAX && |name2| <= NAME_MAX
      requires (dir1, name1) != (dir2, name2)
      requires name1 !in Names(resolver.fs.files[dir1]) && name2 in Names(resolver.fs.files[dir2])
      requires Names(resolver.fs.files[dir2])[name2] !in {dir1, dir2} && moved in resolver.fs.files && moved != dir2
      requires NameUnlinked(f0, resolver.fs.files, dir1, name1, moved)
      modifies resolver.fs
      ensures other == old(Names(resolver.fs.files[dir2]))[name2] && resolver.fs.used == old(resolver.fs.used)
      ensures Exchanging(f0, old(resolver.fs.files), f2, f3, resolver.fs.files, dir1, name1, moved, dir2, name2,
        other, back, linked)
      ensures dir1 in f2 && dir2 in f2 && dir2 in f3
      ensures |f3[dir2].bytes| == |f2[dir2].bytes| + if back && dir1 == dir2 then ENTRY else 0
      ensures back <==> room1 && Searches(|f2[dir1].bytes|, atEnd1)
      ensures linked <==> room2 && Searches(|f3[dir2].bytes|, atEnd2)
    {
      hide Names, DirBytes, TableOk, Searches, RoomInSize, Up, Down;
      other, back, f2 := PutBack(dir1, name1, dir2, name2, room1, atEnd1);
      f3 := resolver.fs.files;
      linked := resolver.fs.Link(dir2, name2, moved, replace, room2, atEnd2);
    }

    /** rename. For each of the two links of an exchange, and the first of them for the
        only link otherwise, `room` says whether the directory can grow and `atEnd` what
        a read at its very end does; `back` and `linked` whether the old and the new name
        were made, which the code does not look at. The kernel has checked that the new
        directory exists, that neither path is below the other, and for an exchange that
        both exist and differ. */
    method Rename(oldPath: Str, newPath: Str, noReplace: bool, exchange: bool, room1: bool, atEnd1: bool, room2: bool,
            atEnd2: bool)
      returns (s: Status, ghost back: bool, ghost linked: bool)
      requires Ok() && IsPath(oldPath) && IsPath(newPath)
      requires forall d | d in resolver.fs.files && resolver.fs.files[d].isDir ::
        |resolver.fs.files[d].bytes| + 256 < 0x8000_0000
      requires LeadsToDir(resolver.fs.files, resolver.root, DirComps(newPath))
      requires !(PathComps(oldPath) <= DirComps(newPath)) && !(PathComps(newPath) <= DirComps(oldPath))
      requires exchange ==>
        Walk(resolver.fs.files, resolver.root, PathComps(newPath)).Some? && PathComps(oldPath) != PathComps(newPath)
      modifies resolver.fs, resolver.cache
      ensures (s == Done || s == NoEntry) && resolver.fs.used == old(resolver.fs.used)
      ensures s == NoEntry <==> old(Walk(resolver.fs.files, resolver.root, PathComps(oldPath))).None?
      ensures s == NoEntry ==> Ok() && resolver.fs.files == old(resolver.fs.files)
      ensures s == Done && !exchange ==>
        Renamed(old(resolver.fs.files), resolver.fs.files, resolver.root, oldPath, newPath, !noReplace, room1, atEnd1,
          linked)
      ensures s == Done && exchange ==>
        Exchanged(old(resolver.fs.files), resolver.fs.files, resolver.root, oldPath, newPath, room1, atEnd1, room2,
          atEnd2, back, linked)
      ensures s == Done && !exchange ==>
        var n, f0 := LastName(newPath), old(resolver.fs.files);
        var p1, p2 := PathComps(oldPath), DirComps(newPath) + [if |n| <= 251 then n else n[..251]];
        var moved := linked && !(|n| > 251 && Walk(f0, resolver.root, p2).Some? && p1 != p2);
        forall cs | NoDots(cs) ::
          Walk(resolver.fs.files, resolver.root, cs) ==
            if moved && p2 <= cs then Walk(f0, resolver.root, p1 + cs[|p2|..])
            else if p1 <= cs then None else Walk(f0, resolver.root, cs)
      ensures s == Done && exchange ==>
        var p1, p2, f0 := PathComps(oldPath), PathComps(newPath), old(resolver.fs.files);
        forall cs | NoDots(cs) ::
          Walk(resolver.fs.files, resolver.root, cs) ==
            if p2 <= cs then if linked then Walk(f0, resolver.root, p1 + cs[|p2|..]) else None
            else if p1 <= cs then if back then Walk(f0, resolver.root, p2 + cs[|p1|..]) else None
            else Walk(f0, resolver.root, cs)
      ensures s == Done ==>
        (Ok() <==> exchange || !(linked && old(Clashes(resolver.fs.files, resolver.root, oldPath, newPath))))
    {
      hide Lookup, Walk, Names, DirBytes, Single, OneLink, Proper, PathComps, Parts, PairsRight, TableOk, DataBlocks,
        Renamed, Exchanged, OnlyTouched, DirComps, LastName, IsPath, NoDots, Dot, Join, RoomInSize, Up, Down, IsName,
        Pairs, WithoutEndSlash, AllPlain, Searches, Trunc, Clashes, Doubles, Doubled, Exchanging;
      RoomInSizeIs(resolver.fs.files);
      var fs := resolver.fs;
      back, linked := false, false;
      PathSplit(oldPath);
      PathSplit(newPath);
      var dir1, name1 := Parent(oldPath, atEnd1);
      ChildWalk(fs.files, resolver.root, oldPath);
      if dir1.None? { return NoEntry, false, false; }
      var dir2, name2 := Parent(newPath, atEnd1);
      ghost var root, used, f0, pairs := resolver.root, fs.used, fs.files, Pairs(resolver.cache.items);
      KnownName(f0, root, dir1.value, name1);
      var moved := fs.Unlink(dir1.value, name1, atEnd1);
      if moved.None? { return NoEntry, false, false; }
      ghost var f1 := fs.files;
      LookupDir(f0, root, oldPath, moved.value);
      NotBelow(f0, root, DirComps(oldPath), name1, DirComps(newPath));
      UnlinkLeaves(f0, f1, root, dir1.value, name1, moved.value, dir2.value);
      UnlinkLeaves(f0, f1, root, dir1.value, name1, moved.value, dir1.value);
      if exchange {
        ChildWalk(f0, root, newPath);
        LookupDir(f0, root, newPath, Walk(f0, root, PathComps(newPath)).value);
        NotBelow(f0, root, DirComps(newPath), name2, DirComps(oldPath));
        TargetName(f0, f1, root, oldPath, newPath, moved.value);
        KnownName(f0, root, dir2.value, name2);
        NamesDiffer(f0, root, oldPath, newPath);
        ghost var other, f2, f3;
        other, back, linked, f2, f3 :=
          Exchange(dir1.value, name1, moved.value, dir2.value, name2, !noReplace, room1, atEnd1, room2, atEnd2, f0);
        ExchangeKeeps(f0, f1, f2, f3, fs.files, used, root, pairs, oldPath, newPath, moved.value, other, room1, atEnd1,
          room2, atEnd2, back, linked);
        ExchangedMeans(f0, fs.files, root, oldPath, newPath, room1, atEnd1, room2, atEnd2, back, linked);
      } else {
        linked := fs.Link(dir2.value, name2, moved.value, !noReplace, room1, atEnd1);
        RenameKeeps(f0, f1, fs.files, used, root, pairs, oldPath, newPath, moved.value, !noReplace, room1, atEnd1,
          linked);
        RenamedMeans(f0, fs.files, root, oldPath, newPath, !noReplace, room1, atEnd1, linked);
      }
      resolver.RemovePrefix(oldPath);
      resolver.RemovePrefix(newPath);
      assert Pairs(resolver.cache.items) == CutBoth(pairs, oldPath, newPath);
      s := Done;
    }
  }

  /** The path is gone with its inode, which is free again. */
  ghost predicate Dropped(files: map<int, FileRec>, used: set<int>, files': map<int, FileRec>, used': set<int>,
          root: Word, path: Str)
    requires IsPath(path)
  {
    && PathGone(files, files', root, PathComps(path))
    && Walk(files, root, PathComps(path)).Some? && used' == used - {Walk(files, root, PathComps(path)).value as int}
    && Walk(files, root, DirComps(path)).Some?
    && OnlyDirs(files, files', {Walk(files, root, DirComps(path)).value as int})
  }

  lemma DroppedMeans(files: map<int, FileRec>, used: set<int>, files': map<int, FileRec>, used': set<int>, root: Word,
          path: Str)
    requires IsPath(path) && Dropped(files, used, files', used', root, path)
    ensures Walk(files, root, PathComps(path)).Some? && Walk(files, root, DirComps(path)).Some?
    ensures used' == used - {Walk(files, root, PathComps(path)).value as int}
    ensures forall cs | NoDots(cs) ::
      Walk(files', root, cs) == if PathComps(path) <= cs then None else Walk(files, root, cs)
    ensures forall f | f in files && f != Walk(files, root, DirComps(path)).value ::
      f in files' && files'[f] == files[f]
  {}

  lemma ChildWalk(files: map<int, FileRec>, root: Word, path: Str)
    requires IsPath(path)
    ensures Walk(files, root, PathComps(path)) ==
            if Walk(files, root, DirComps(path)).None? then None
            else Lookup(files, Walk(files, root, DirComps(path)).value, LastName(path))
  {}

  lemma TakeKeeps(files: map<int, FileRec>, files': map<int, FileRec>, used: set<int>, root: Word,
          pairs: set<(Str, Word)>, q: Comps, n: Str, id: Word)
    requires TreeOk(files, used, root) && PairsRight(files, root, pairs) && LeadsToDir(files, root, q) && !Dot(n)
    requires var d := DirAt(files, root, q);
      && Lookup(files, d, n) == Some(id) && d in files' && files' == files[d := files'[d]]
      && DirOk(files'[d]) && files'[d].links == files[d].links && Names(files'[d]) == Names(files[d]) - {n}
    ensures TreeOk(files', used - {id as int}, root) && PathGone(files, files', root, q + [n])
    ensures OnlyDirs(files, files', {DirAt(files, root, q)})
    ensures PairsRight(files', root, set p | p in pairs && !(Join(q + [n]) <= p.0))
  {
    hide Walk, Lookup, Single, PairsRight, OneLink, Names, Join, PathGone;
    RemovedStep(files, files', used, root, DirAt(files, root, q), n, id);
    TakePaths(files, files', root, q, n);
    SingleTree(files, root);
    CoherentAfter(files, files', root, pairs, q, n, q, n);
    var k := Join(q + [n]);
    assert (set p | p in pairs && !(k <= p.0) && !(k <= p.0)) == set p | p in pairs && !(k <= p.0);
  }

  lemma DirOkOf(files: map<int, FileRec>, root: Word, id: int)
    requires TableOk(files, root) && id in files
    ensures files[id].isDir ==> DirBytes(files[id].bytes)
  {}

  /** A directory that rmdir takes for empty. */
  ghost predicate OnlyDots(r: FileRec) {
    TotalBlocks(|r.bytes|) <= 1 && forall n | n in Names(r) :: n == [] || Dot(n)
  }

  lemma OnlyDotsIs(r: FileRec)
    ensures OnlyDots(r) <==>
      |r.bytes| <= 4096 && forall n | n in Names(r) :: n == [] || n == [46] || n == [46, 46]
  {
    hide Names;
  }

  /** The check of rmdir: one block at most, and no entry in it but "." and "..". */
  method IsEmptyDir(r: FileRec, atEnd: bool) returns (empty: bool)
    requires DirBytes(r.bytes)
    ensures empty <==> |r.bytes| <= 4096 && forall n | n in Names(r) :: n == [] || n == [46] || n == [46, 46]
  {
    hide Unpack, Bindings, Unique, TotalBlocks, ReadBlock, Slot;
    var c := r.bytes;
    Counts(|c|);
    OnlyDotsIs(r);
    if TotalBlocks(|c|) > 1 { return false; }
    var buf: Block := seq(4096, _ => 0);
    var data := ReadBlock(c, 0, buf, atEnd);
    ReadOutcome(c, 0, buf, atEnd);
    EmptySlots(buf);
    var blk := if data.Some? then data.value else buf;
    var j := 0;
    while j < SLOTS
      invariant 0 <= j <= SLOTS && blk == (if data.Some? then data.value else buf)
      invariant forall k | 0 <= k < |Entries(c)| && k < j :: Entries(c)[k].name == [] || Dot(Entries(c)[k].name)
    {
      if data.Some? { ReadSlot(c, 0, buf, atEnd, j); }
      var name := Slot(blk, j).name;
      if name != [] && !Dot(name) {
        BindingsHas(Entries(c), name);
        return false;
      }
      j := j + 1;
    }
    forall n | n in Bindings(Entries(c))
      ensures n == [] || Dot(n)
    {
      BindingsHas(Entries(c), n);
    }
    empty := true;
  }

  /** Nothing is below a directory that rmdir takes for empty. */
  lemma NothingBelow(files: map<int, FileRec>, root: Word, p: Comps)
    requires Walk(files, root, p).Some? && Walk(files, root, p).value in files
    requires files[Walk(files, root, p).value].isDir && OnlyDots(files[Walk(files, root, p).value])
    ensures forall cs | Proper(cs) && p < cs :: Walk(files, root, cs).None?
  {
    hide Names, Walk, TotalBlocks;
    forall cs | Proper(cs) && p < cs
      ensures Walk(files, root, cs).None?
    {
      assert cs[..|p|] == p && IsName(cs[|p|]);
      if Walk(files, root, cs).Some? { StepUsed(files, root, cs, |p|); }
    }
  }

  /** The inode a path leads to. */
  ghost function InodeOf(files: map<int, FileRec>, root: Word, path: Str): int
    requires IsPath(path)
  {
    if Walk(files, root, PathComps(path)).Some? then Walk(files, root, PathComps(path)).value else -1
  }

  /** The new name is too long, and what an entry keeps of it is there already; unless
      that is the old name, which is unlinked first. */
  ghost predicate Clashes(files: map<int, FileRec>, root: Word, oldPath: Str, newPath: Str)
    requires IsPath(oldPath) && IsPath(newPath)
  {
    |LastName(newPath)| > NAME_MAX && NameTaken(files, root, newPath) && PathComps(oldPath) != KeptComps(newPath)
  }

  /** rename without exchange: the subtree moved if the new name could be linked, and
      else the old name is lost. Linking fails for an existing target with NOREPLACE,
      without room, and where a search for a name that is not there fails. */
  ghost predicate Renamed(files: map<int, FileRec>, files': map<int, FileRec>, root: Word, oldPath: Str, newPath: Str,
                          replace: bool, room: bool, atEnd: bool, linked: bool)
    requires IsPath(oldPath) && IsPath(newPath)
  {
    && LeadsToDir(files, root, DirComps(oldPath)) && LeadsToDir(files, root, DirComps(newPath))
    && (if linked && !Clashes(files, root, oldPath, newPath)
        then PathMoved(files, files', root, PathComps(oldPath), KeptComps(newPath))
        else PathGone(files, files', root, PathComps(oldPath)))
    && OnlyDirs(files, files', {DirOf(files, root, oldPath), if linked then DirOf(files, root, newPath)
       else InodeOf(files, root, oldPath)})
    && var d1, d2 := DirOf(files, root, oldPath), DirOf(files, root, newPath);
       var size := |files[d2].bytes| - if d1 == d2 then ENTRY else 0;
       if Walk(files, root, PathComps(newPath)).Some? && PathComps(oldPath) != PathComps(newPath)
       then linked <==> replace
       else size >= 0 && (linked <==> room && Searches(size, atEnd))
  }

  /** In terms of paths and bytes. */
  lemma RenamedMeans(files: map<int, FileRec>, files': map<int, FileRec>, root: Word, oldPath: Str, newPath: Str,
          replace: bool, room: bool, atEnd: bool, linked: bool)
    requires IsPath(oldPath) && IsPath(newPath)
    requires Renamed(files, files', root, oldPath, newPath, replace, room, atEnd, linked)
    requires Walk(files, root, PathComps(oldPath)).Some?
    ensures LeadsToDir(files, root, DirComps(oldPath)) && LeadsToDir(files, root, DirComps(newPath))
    ensures var n := LastName(newPath); var p1, p2 := PathComps(oldPath),
        DirComps(newPath) + [if |n| <= 251 then n else n[..251]];
      forall cs | NoDots(cs) ::
        Walk(files', root, cs) == if linked && !(|n| > 251 && Walk(files, root, p2).Some? && p1 != p2)
                                  then if p2 <= cs then Walk(files, root, p1 + cs[|p2|..])
                                       else if p1 <= cs then None else Walk(files, root, cs)
                                  else if p1 <= cs then None else Walk(files, root, cs)
    ensures var d1, d2 := DirAt(files, root, DirComps(oldPath)), DirAt(files, root, DirComps(newPath));
      var v := Walk(files, root, PathComps(oldPath)).value;
      forall f | f in files && f != d1 && f != (if linked then d2 else v) :: f in files' && files'[f] == files[f]
    ensures var d1, d2 := DirAt(files, root, DirComps(oldPath)), DirAt(files, root, DirComps(newPath));
      var size := |files[d2].bytes| - if d1 == d2 then 256 else 0;
      if Walk(files, root, PathComps(newPath)).Some? && PathComps(oldPath) != PathComps(newPath)
      then linked <==> replace
      else linked <==> room && (size <= 22 * 4096 || (size <= 1046 * 4096 && size % 4096 == 0 && atEnd))
  {
    hide Walk, PathComps, NoDots, Lookup, DataBlocks;
    var n, q := LastName(newPath), DirComps(newPath);
    WalkStep(files, root, q + [Trunc(n)], q, Trunc(n));
    assert NameTaken(files, root, newPath) <==> Walk(files, root, KeptComps(newPath)).Some?;
    forall size: nat
      ensures Searches(size, atEnd) <==> size <= 22 * 4096 || (size <= 1046 * 4096 && size % 4096 == 0 && atEnd)
    {
      SearchesIs(size, atEnd);
    }
  }

  /** rename with exchange: the subtrees change places if both names could be linked, one
      of them moves to the place of the other if one could, and both are lost if none
      could. Both names are unlinked before the first is linked, so that the directories
      are shorter then. */
  ghost predicate Exchanged(files: map<int, FileRec>, files': map<int, FileRec>, root: Word, oldPath: Str, newPath: Str,
                            room1: bool, atEnd1: bool, room2: bool, atEnd2: bool, back: bool, linked: bool)
    requires IsPath(oldPath) && IsPath(newPath)
  {
    && LeadsToDir(files, root, DirComps(oldPath)) && LeadsToDir(files, root, DirComps(newPath))
    && var d1, d2 := DirOf(files, root, oldPath), DirOf(files, root, newPath);
       var size1 := |files[d1].bytes| - if d1 == d2 then 2 * ENTRY else ENTRY;
       var size2 := if d1 == d2 then size1 + (if back then ENTRY else 0) else |files[d2].bytes| - ENTRY;
       && size1 >= 0 && (back <==> room1 && Searches(size1, atEnd1))
       && size2 >= 0 && (linked <==> room2 && Searches(size2, atEnd2))
       && Agree(files, files', {(d1, LastName(oldPath)), (d2, LastName(newPath))}, -1)
       && OnlyDirs(files, files', {d1, d2} + (if back then {} else {InodeOf(files, root, newPath)})
                                           + if linked then {} else {InodeOf(files, root, oldPath)})
       && var p1, p2 := PathComps(oldPath), PathComps(newPath);
          if back && linked then PathsSwapped(files, files', root, p1, p2)
          else if linked then PathMoved(files, files', root, p1, p2)
          else if back then PathMoved(files, files', root, p2, p1)
          else PathsGone(files, files', root, p1, p2)
  }

  /** Of two paths that begin a third one is below the other. */
  lemma NotBoth(p1: Comps, p2: Comps, cs: Comps)
    requires p1 <= cs && p2 <= cs && p1 != p2
    ensures (|p2| > 0 && p1 <= p2[..|p2| - 1]) || (|p1| > 0 && p2 <= p1[..|p1| - 1])
  {
    assert p1 == cs[..|p1|] && p2 == cs[..|p2|];
  }

  lemma ExchangedMeans(files: map<int, FileRec>, files': map<int, FileRec>, root: Word, oldPath: Str, newPath: Str,
          room1: bool, atEnd1: bool, room2: bool, atEnd2: bool, back: bool, linked: bool)
    requires IsPath(oldPath) && IsPath(newPath)
    requires Exchanged(files, files', root, oldPath, newPath, room1, atEnd1, room2, atEnd2, back, linked)
    requires !(PathComps(oldPath) <= DirComps(newPath)) && !(PathComps(newPath) <= DirComps(oldPath))
    requires PathComps(oldPath) != PathComps(newPath)
    requires Walk(files, root, PathComps(oldPath)).Some? && Walk(files, root, PathComps(newPath)).Some?
    ensures LeadsToDir(files, root, DirComps(oldPath)) && LeadsToDir(files, root, DirComps(newPath))
    ensures var p1, p2 := PathComps(oldPath), PathComps(newPath);
      forall cs | NoDots(cs) ::
        Walk(files', root, cs) == if p2 <= cs then if linked then Walk(files, root, p1 + cs[|p2|..]) else None
                                  else if p1 <= cs then if back then Walk(files, root, p2 + cs[|p1|..]) else None
                                  else Walk(files, root, cs)
    ensures var d1, d2 := DirAt(files, root, DirComps(oldPath)), DirAt(files, root, DirComps(newPath));
      var v, w := Walk(files, root, PathComps(oldPath)).value, Walk(files, root, PathComps(newPath)).value;
      forall f | f in files && f != d1 && f != d2 && (linked || f != v) && (back || f != w) ::
        f in files' && files'[f] == files[f]
    ensures var d1, d2 := DirAt(files, root, DirComps(oldPath)), DirAt(files, root, DirComps(newPath));
      var size1 := |files[d1].bytes| - if d1 == d2 then 512 else 256;
      var size2 := if d1 == d2 then size1 + (if back then 256 else 0) else |files[d2].bytes| - 256;
      && (back <==> room1 && (size1 <= 22 * 4096 || (size1 <= 1046 * 4096 && size1 % 4096 == 0 && atEnd1)))
      && (linked <==> room2 && (size2 <= 22 * 4096 || (size2 <= 1046 * 4096 && size2 % 4096 == 0 && atEnd2)))
  {
    hide Walk, PathComps, NoDots, Lookup, DataBlocks, Agree;
    forall cs | NoDots(cs)
      ensures !(PathComps(oldPath) <= cs && PathComps(newPath) <= cs)
    {
      if PathComps(oldPath) <= cs && PathComps(newPath) <= cs { NotBoth(PathComps(oldPath), PathComps(newPath), cs); }
    }
    forall size: nat, atEnd: bool
      ensures Searches(size, atEnd) <==> size <= 22 * 4096 || (size <= 1046 * 4096 && size % 4096 == 0 && atEnd)
    {
      SearchesIs(size, atEnd);
    }
  }

  /** The table after a name was unlinked. */
  ghost predicate NameUnlinked(files: map<int, FileRec>, files': map<int, FileRec>, d: int, n: Str, id: Word) {
    && OnlyTouched(files, files', d, id) && Names(files'[d]) == Names(files[d]) - {n}
    && id in files && id in files' && files'[id].links == Down(files[id].links)
    && |files'[d].bytes| + ENTRY == |files[d].bytes|
  }

  /** The pairs that both calls of removePrefix leave. */
  ghost function CutBoth(pairs: set<(Str, Word)>, oldPath: Str, newPath: Str): set<(Str, Word)>
    requires IsPath(oldPath) && IsPath(newPath)
  {
    set p | p in pairs && !(Join(PathComps(oldPath)) <= p.0) && !(Join(PathComps(newPath)) <= p.0)
  }

  lemma KnownName(files: map<int, FileRec>, root: Word, d: int, n: Str)
    requires TableOk(files, root) && d in files
    ensures files[d].isDir ==> DirBytes(files[d].bytes)
    ensures files[d].isDir && n in Names(files[d]) ==> Names(files[d])[n] in files && |n| <= NAME_MAX
    ensures Lookup(files, d, n) == if files[d].isDir && n in Names(files[d]) then Some(Names(files[d])[n]) else None
  {
    if files[d].isDir && n in Names(files[d]) { NamesShort(files[d], n); }
  }

  lemma LookupDir(files: map<int, FileRec>, root: Word, path: Str, id: Word)
    requires IsPath(path) && Walk(files, root, DirComps(path)).Some?
    requires Lookup(files, Walk(files, root, DirComps(path)).value, LastName(path)) == Some(id)
    ensures LeadsToDir(files, root, DirComps(path))
  {}

  /** What unlink leaves of a directory e, the same or another. */
  lemma UnlinkLeaves(files: map<int, FileRec>, files': map<int, FileRec>, root: Word, d: int, n: Str, id: Word, e: int)
    requires TableOk(files, root) && RoomInSize(files) && NameUnlinked(files, files', d, n, id) && e in files
    ensures TableOk(files', root) && RoomInSize(files') && e in files' && files'[e].isDir == files[e].isDir
    ensures files'[e].isDir ==> DirBytes(files'[e].bytes) && |files'[e].bytes| + ENTRY < I31
    ensures |files'[e].bytes| == if e == d then |files[e].bytes| - ENTRY else |files[e].bytes|
    ensures Names(files'[e]) == if e == d then Names(files[e]) - {n} else Names(files[e])
  {
    hide Names, DirBytes;
    UnlinkTaken(files, files', root, d, n, id);
    if e != d { SameNames(files[e], files'[e]); }
  }

  lemma LinkLeaves(files: map<int, FileRec>, files': map<int, FileRec>, root: Word, d: int, n: Str, id: Word, ok: bool,
          e: int)
    requires TableOk(files, root) && Tried(files, files', d, n, id, ok) && e in files
    ensures TableOk(files', root) && e in files' && (files[e].isDir ==> files'[e].isDir && DirBytes(files'[e].bytes))
    ensures e != d ==> files'[e].bytes == files[e].bytes && Names(files'[e]) == Names(files[e])
  {
    hide Names, DirBytes;
    TriedStep(files, files', root, d, n, id, ok);
    if e != d { SameNames(files[e], files'[e]); }
  }

  /** The table after link, in the words of its contract. */
  ghost predicate LinkedBy(f1: map<int, FileRec>, f2: map<int, FileRec>, d: int, n: Str, id: Word, ok: bool) {
    d in f1 && if ok && Doubles(f1[d], n) then Doubled(f1, f2, d, n, id) else Tried(f1, f2, d, Trunc(n), id, ok)
  }

  /** rename after its first step: the table was f0, and is f1 now that the old name,
      which led to inode v, is unlinked. */
  ghost predicate Renaming(f0: map<int, FileRec>, f1: map<int, FileRec>, used: set<int>, root: Word, oldPath: Str,
          newPath: Str, v: Word)
    requires IsPath(oldPath) && IsPath(newPath)
  {
    && TreeOk(f0, used, root)
    && LeadsToDir(f0, root, DirComps(oldPath)) && LeadsToDir(f0, root, DirComps(newPath))
    && !(PathComps(oldPath) <= DirComps(newPath)) && !(PathComps(newPath) <= DirComps(oldPath))
    && Lookup(f0, DirOf(f0, root, oldPath), LastName(oldPath)) == Some(v)
    && v != DirOf(f0, root, oldPath) && v != DirOf(f0, root, newPath)
    && NameUnlinked(f0, f1, DirOf(f0, root, oldPath), LastName(oldPath), v)
  }

  /** The new name was linked. */
  lemma RenameLinked(f0: map<int, FileRec>, f1: map<int, FileRec>, f2: map<int, FileRec>, used: set<int>, root: Word,
          pairs: set<(Str, Word)>, oldPath: Str, newPath: Str, v: Word)
    requires IsPath(oldPath) && IsPath(newPath) && Renaming(f0, f1, used, root, oldPath, newPath, v)
    requires PairsRight(f0, root, pairs)
    requires Tried(f1, f2, DirOf(f0, root, newPath), Trunc(LastName(newPath)), v, true)
    requires !Clashes(f0, root, oldPath, newPath)
    ensures TreeOk(f2, used, root) && PairsRight(f2, root, CutBoth(pairs, oldPath, newPath))
    ensures PathMoved(f0, f2, root, PathComps(oldPath), KeptComps(newPath))
    ensures OnlyDirs(f0, f2, {DirOf(f0, root, oldPath), DirOf(f0, root, newPath)})
  {
    hide Walk, Lookup, Single, PairsRight, OneLink, Names, Join, PathMoved, TableOk, DirBytes, Parts, PathComps, Proper,
      OnlyTouched, Trunc;
    var d1, n1, d2, n2 := DirOf(f0, root, oldPath), LastName(oldPath), DirOf(f0, root, newPath), LastName(newPath);
    var q1, q2, kept := DirComps(oldPath), DirComps(newPath), Trunc(LastName(newPath));
    PathSplit(oldPath);
    PathSplit(newPath);
    TruncDot(n2);
    SingleTree(f0, root);
    RelinkStep(f0, f1, f2, used, root, d1, n1, d2, kept, v, true);
    KeptName(f0, root, oldPath, newPath);
    if |n2| <= NAME_MAX {
      CoherentAfter(f0, f2, root, pairs, q1, n1, q2, n2);
    } else {
      CoherentMoved(f0, f2, root, pairs, q1, n1, d2, kept);
      FewerPairs(f2, root, pairs, oldPath, newPath);
    }
    MovePaths(f0, f2, root, q1, n1, q2, kept);
  }

  /** What an entry keeps of a name that is too long is new, or the old name. */
  lemma KeptName(f0: map<int, FileRec>, root: Word, oldPath: Str, newPath: Str)
    requires IsPath(oldPath) && IsPath(newPath) && !(PathComps(newPath) <= DirComps(oldPath))
    requires !Clashes(f0, root, oldPath, newPath)
    requires LeadsToDir(f0, root, DirComps(oldPath)) && LeadsToDir(f0, root, DirComps(newPath))
    ensures |LastName(newPath)| <= NAME_MAX ==>
      KeptComps(newPath) == PathComps(newPath) && Trunc(LastName(newPath)) == LastName(newPath)
    ensures |LastName(newPath)| > NAME_MAX ==>
      || Lookup(f0, DirOf(f0, root, newPath), Trunc(LastName(newPath))).None?
      || (DirOf(f0, root, newPath), Trunc(LastName(newPath))) == (DirOf(f0, root, oldPath), LastName(oldPath))
    ensures Lookup(f0, DirOf(f0, root, newPath), Trunc(LastName(newPath))).Some? ==>
      !(KeptComps(newPath) <= DirComps(oldPath))
  {
    hide Walk, Lookup, PathComps, Proper, Parts;
    PathSplit(oldPath);
    PathSplit(newPath);
    if PathComps(oldPath) == KeptComps(newPath) {
      assert PathComps(oldPath)[..|PathComps(oldPath)| - 1] == DirComps(oldPath);
      assert KeptComps(newPath)[..|KeptComps(newPath)| - 1] == DirComps(newPath);
    }
  }

  lemma FewerPairs(files: map<int, FileRec>, root: Word, pairs: set<(Str, Word)>, oldPath: Str, newPath: Str)
    requires IsPath(oldPath) && IsPath(newPath)
    requires PairsRight(files, root, set p | p in pairs && !(Join(PathComps(oldPath)) <= p.0))
    ensures PairsRight(files, root, CutBoth(pairs, oldPath, newPath))
  {
    hide Walk, Parts, Join, PathComps;
  }

  /** The new name was not linked. */
  lemma RenameLost(f0: map<int, FileRec>, f1: map<int, FileRec>, f2: map<int, FileRec>, used: set<int>, root: Word,
          pairs: set<(Str, Word)>, oldPath: Str, newPath: Str, v: Word)
    requires IsPath(oldPath) && IsPath(newPath) && Renaming(f0, f1, used, root, oldPath, newPath, v)
    requires PairsRight(f0, root, pairs)
    requires Tried(f1, f2, DirOf(f0, root, newPath), Trunc(LastName(newPath)), v, false)
    ensures TreeOk(f2, used, root) && PairsRight(f2, root, CutBoth(pairs, oldPath, newPath))
    ensures PathGone(f0, f2, root, PathComps(oldPath))
    ensures OnlyDirs(f0, f2, {DirOf(f0, root, oldPath), v as int})
  {
    hide Walk, Lookup, Single, PairsRight, OneLink, Names, Join, PathGone, TableOk, DirBytes, Parts, PathComps, Proper,
      OnlyTouched, Trunc;
    var d1, n1, d2, n2 := DirOf(f0, root, oldPath), LastName(oldPath), DirOf(f0, root, newPath), LastName(newPath);
    PathSplit(oldPath);
    PathSplit(newPath);
    TruncDot(n2);
    SingleTree(f0, root);
    RelinkStep(f0, f1, f2, used, root, d1, n1, d2, Trunc(n2), v, false);
    CoherentMoved(f0, f2, root, pairs, DirComps(oldPath), n1, d1, n1);
    FewerPairs(f2, root, pairs, oldPath, newPath);
    TakePaths(f0, f2, root, DirComps(oldPath), n1);
  }

  /** The new name is there twice now, and the inode is found under neither. */
  lemma RenameClashed(f0: map<int, FileRec>, f1: map<int, FileRec>, f2: map<int, FileRec>, used: set<int>, root: Word,
          oldPath: Str, newPath: Str, v: Word)
    requires IsPath(oldPath) && IsPath(newPath) && Renaming(f0, f1, used, root, oldPath, newPath, v)
    requires Doubled(f1, f2, DirOf(f0, root, newPath), LastName(newPath), v) && f1[DirOf(f0, root, newPath)].isDir
    ensures !TableOk(f2, root) && PathGone(f0, f2, root, PathComps(oldPath))
    ensures OnlyDirs(f0, f2, {DirOf(f0, root, oldPath), DirOf(f0, root, newPath)})
  {
    hide Walk, Lookup, Single, OneLink, Names, DirBytes, Parts, PathComps, Proper, PathGone, Pack;
    var d1, n1, d2 := DirOf(f0, root, oldPath), LastName(oldPath), DirOf(f0, root, newPath);
    PathSplit(oldPath);
    UnlinkTaken(f0, f1, root, d1, n1, v);
    forall e | e in f2 && e != d2
      ensures Names(f2[e]) == Names(f1[e])
    {
      SameNames(f1[e], f2[e]);
    }
    SameLookups(f1, f2);
    TakePaths(f0, f2, root, DirComps(oldPath), n1);
  }

  lemma SameLookups(f1: map<int, FileRec>, f2: map<int, FileRec>)
    requires f2.Keys == f1.Keys && forall e | e in f1 :: f2[e].isDir == f1[e].isDir && Names(f2[e]) == Names(f1[e])
    ensures forall d, n :: Lookup(f2, d, n) == Lookup(f1, d, n)
  {}

  /** When the name makes a second entry. */
  lemma ClashIs(f0: map<int, FileRec>, f1: map<int, FileRec>, used: set<int>, root: Word, oldPath: Str, newPath: Str,
          v: Word)
    requires IsPath(oldPath) && IsPath(newPath) && Renaming(f0, f1, used, root, oldPath, newPath, v)
    ensures DirOf(f0, root, newPath) in f1 && f1[DirOf(f0, root, newPath)].isDir
    ensures Doubles(f1[DirOf(f0, root, newPath)], LastName(newPath)) <==> Clashes(f0, root, oldPath, newPath)
  {
    hide Walk, Single, Proper, PathComps, Parts, Names, DirBytes;
    var d1, n1, d2, n2 := DirOf(f0, root, oldPath), LastName(oldPath), DirOf(f0, root, newPath), LastName(newPath);
    PathSplit(oldPath);
    PathSplit(newPath);
    UnlinkTaken(f0, f1, root, d1, n1, v);
    if n2 in Names(f1[d2]) { NamesShort(f1[d2], n2); }
    if d1 == d2 { SingleOnce(f0, root, DirComps(oldPath), DirComps(newPath)); } else { SameNames(f0[d2], f1[d2]); }
    SameFront(DirComps(oldPath), n1, DirComps(newPath), Trunc(n2));
  }

  lemma NamesShort(r: FileRec, n: Str)
    requires DirBytes(r.bytes) && n in Names(r)
    ensures |n| <= NAME_MAX
  {
    ShortName(r.bytes, n);
  }

  lemma SameFront(a: Comps, x: Str, b: Comps, y: Str)
    ensures a + [x] == b + [y] <==> a == b && x == y
  {
    if a + [x] == b + [y] {
      assert (a + [x])[..|a|] == a && (b + [y])[..|b|] == b && (a + [x])[|a|] == x && (b + [y])[|b|] == y;
    }
  }

  lemma RenameKeeps(f0: map<int, FileRec>, f1: map<int, FileRec>, f2: map<int, FileRec>, used: set<int>, root: Word,
          pairs: set<(Str, Word)>, oldPath: Str, newPath: Str, v: Word, replace: bool, room: bool, atEnd: bool,
          ok: bool)
    requires IsPath(oldPath) && IsPath(newPath) && Renaming(f0, f1, used, root, oldPath, newPath, v)
    requires PairsRight(f0, root, pairs)
    requires var d2, n2 := DirOf(f0, root, newPath), LastName(newPath);
      LinkedBy(f1, f2, d2, n2, v, ok) && (ok <==> Linkable(f1[d2], n2, replace, room, atEnd))
    ensures ok && Clashes(f0, root, oldPath, newPath) ==> !TableOk(f2, root)
    ensures !(ok && Clashes(f0, root, oldPath, newPath)) ==>
      TreeOk(f2, used, root) && PairsRight(f2, root, CutBoth(pairs, oldPath, newPath))
    ensures Renamed(f0, f2, root, oldPath, newPath, replace, room, atEnd, ok)
  {
    hide Walk, Single, PairsRight, OneLink, Names, PathMoved, PathGone, TableOk, DirBytes, Parts, PathComps, Proper,
      Doubled, Doubles, Tried, Clashes, Trunc, Searches, DirComps, LastName;
    ClashIs(f0, f1, used, root, oldPath, newPath, v);
    TargetName(f0, f1, root, oldPath, newPath, v);
    ChildWalk(f0, root, oldPath);
    if !ok {
      RenameLost(f0, f1, f2, used, root, pairs, oldPath, newPath, v);
    } else if Clashes(f0, root, oldPath, newPath) {
      RenameClashed(f0, f1, f2, used, root, oldPath, newPath, v);
    } else {
      RenameLinked(f0, f1, f2, used, root, pairs, oldPath, newPath, v);
    }
  }

  /** When the new name is in the way of link. */
  lemma TargetName(f0: map<int, FileRec>, f1: map<int, FileRec>, root: Word, oldPath: Str, newPath: Str, v: Word)
    requires Single(f0, root) && IsPath(oldPath) && IsPath(newPath) && LeadsToDir(f0, root, DirComps(oldPath))
    requires LeadsToDir(f0, root, DirComps(newPath))
    requires NameUnlinked(f0, f1, DirOf(f0, root, oldPath), LastName(oldPath), v)
    ensures var d1, d2, n2 := DirOf(f0, root, oldPath), DirOf(f0, root, newPath), LastName(newPath);
      && d2 in f1 && |f1[d2].bytes| == (if d1 == d2 then |f0[d2].bytes| - ENTRY else |f0[d2].bytes|)
      && (n2 in Names(f1[d2]) <==> Walk(f0, root, PathComps(newPath)).Some? && PathComps(oldPath) != PathComps(newPath))
  {
    hide Walk, Single, Names, PathComps, Proper, DirBytes;
    var d1, n1, d2, n2 := DirOf(f0, root, oldPath), LastName(oldPath), DirOf(f0, root, newPath), LastName(newPath);
    PathSplit(oldPath);
    PathSplit(newPath);
    ChildWalk(f0, root, newPath);
    if d1 == d2 {
      SingleOnce(f0, root, DirComps(oldPath), DirComps(newPath));
    } else {
      SameNames(f0[d2], f1[d2]);
    }
  }

  /** An exchange after its last step: unlinked, unlinked, linked or not, linked or not. */
  ghost predicate Exchanging(f0: map<int, FileRec>, f1: map<int, FileRec>, f2: map<int, FileRec>, f3: map<int, FileRec>,
          f4: map<int, FileRec>, d1: int, n1: Str, v: Word, d2: int, n2: Str, w: Word, back: bool, linked: bool)
  {
    && NameUnlinked(f0, f1, d1, n1, v) && NameUnlinked(f1, f2, d2, n2, w)
    && Tried(f2, f3, d1, n1, w, back) && Tried(f3, f4, d2, n2, v, linked)
  }

  lemma ExchangeKeeps(f0: map<int, FileRec>, f1: map<int, FileRec>, f2: map<int, FileRec>, f3: map<int, FileRec>,
          f4: map<int, FileRec>, used: set<int>, root: Word, pairs: set<(Str, Word)>, oldPath: Str, newPath: Str,
          v: Word, w: Word, room1: bool, atEnd1: bool, room2: bool, atEnd2: bool, back: bool, linked: bool)
    requires IsPath(oldPath) && IsPath(newPath) && Renaming(f0, f1, used, root, oldPath, newPath, v)
    requires PairsRight(f0, root, pairs)
    requires PathComps(oldPath) != PathComps(newPath)
    requires var d1, n1, d2, n2 := DirOf(f0, root, oldPath), LastName(oldPath), DirOf(f0, root, newPath),
      LastName(newPath);
      && Lookup(f0, d2, n2) == Some(w) && w != d1 && w != d2
      && Exchanging(f0, f1, f2, f3, f4, d1, n1, v, d2, n2, w, back, linked)
      && d1 in f2 && d2 in f3 && |f3[d2].bytes| == (if d1 == d2 && back then |f2[d2].bytes| + ENTRY else |f2[d2].bytes|)
      && (back <==> room1 && Searches(|f2[d1].bytes|, atEnd1))
      && (linked <==> room2 && Searches(|f3[d2].bytes|, atEnd2))
    ensures TreeOk(f4, used, root) && PairsRight(f4, root, CutBoth(pairs, oldPath, newPath))
    ensures Exchanged(f0, f4, root, oldPath, newPath, room1, atEnd1, room2, atEnd2, back, linked)
  {
    hide Walk, Lookup, Single, PairsRight, OneLink, Names, Join, PathsSwapped, PathMoved, PathsGone, TableOk, DirBytes,
      Parts, PathComps, Proper, Searches, Tried, Agree, OnlyDirs;
    var d1, n1, d2, n2 := DirOf(f0, root, oldPath), LastName(oldPath), DirOf(f0, root, newPath), LastName(newPath);
    var q1, q2 := DirComps(oldPath), DirComps(newPath);
    PathSplit(oldPath);
    PathSplit(newPath);
    SingleTree(f0, root);
    NamesDiffer(f0, root, oldPath, newPath);
    ExchangeStep(f0, f1, f2, f3, f4, used, root, d1, n1, v, d2, n2, w, back, linked);
    CoherentAfter(f0, f4, root, pairs, q1, n1, q2, n2);
    ChildWalk(f0, root, oldPath);
    ChildWalk(f0, root, newPath);
    if back && linked {
      SwapPaths(f0, f4, root, q1, n1, q2, n2);
    } else if linked {
      MovePaths(f0, f4, root, q1, n1, q2, n2);
    } else if back {
      MovePaths(f0, f4, root, q2, n2, q1, n1);
    } else {
      GonePaths(f0, f4, root, q1, n1, q2, n2);
    }
  }

  /** Different paths are different names. */
  lemma NamesDiffer(files: map<int, FileRec>, root: Word, oldPath: Str, newPath: Str)
    requires Single(files, root) && IsPath(oldPath) && IsPath(newPath) && PathComps(oldPath) != PathComps(newPath)
    requires LeadsToDir(files, root, DirComps(oldPath)) && LeadsToDir(files, root, DirComps(newPath))
    ensures (DirOf(files, root, oldPath), LastName(oldPath)) != (DirOf(files, root, newPath), LastName(newPath))
  {
    hide Walk, Single, PathComps, Proper;
    PathSplit(oldPath);
    PathSplit(newPath);
    if DirOf(files, root, oldPath) == DirOf(files, root, newPath) {
      SingleOnce(files, root, DirComps(oldPath), DirComps(newPath));
    }
  }
}
