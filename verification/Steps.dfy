/** What the inode operations do to the name space, and that they keep its invariants. */
module Steps {
  import opened Blocks
  import opened Paths
  import opened DirEntries
  import opened DirScan
  import opened Files
  import opened Namespace
  import opened Moves
  import opened Wrappers

  /** An inode with a name has the link count 1. */
  ghost predicate OneLink(files: map<int, FileRec>) {
    forall d, n | !Dot(n) && Lookup(files, d, n).Some? ::
      Lookup(files, d, n).value in files && files[Lookup(files, d, n).value].links == 1
  }

  ghost predicate TreeOk(files: map<int, FileRec>, used: set<int>, root: Word) {
    NsOk(files, used, root) && OneLink(files)
  }

  /** No directory is about to outgrow what can be read of it. */
  ghost predicate RoomInSize(files: map<int, FileRec>) {
    forall d | d in files && files[d].isDir :: |files[d].bytes| + ENTRY < I31
  }

  lemma RoomInSizeIs(files: map<int, FileRec>)
    requires forall d | d in files && files[d].isDir :: |files[d].bytes| + 256 < 0x8000_0000
    ensures RoomInSize(files)
  {}

  lemma FreshTree(root: Word)
    ensures TreeOk(map[root as int := FileRec(true, 1, DotEntries(root, root))], {root as int}, root)
  {
    hide DotEntries;
    DotNames(root, root);
  }

  /** Only the directory d changed its names. */
  lemma TouchedAgree(files: map<int, FileRec>, files': map<int, FileRec>, root: Word, d: int, n: Str, id: int)
    requires TableOk(files, root) && OnlyTouched(files, files', d, id)
    requires forall x | x != n ::
      && (x in Names(files'[d]) <==> x in Names(files[d]))
      && (x in Names(files[d]) ==> Names(files'[d])[x] == Names(files[d])[x])
    requires n in Names(files'[d]) ==> Names(files'[d])[n] in files
    ensures Agree(files, files', {(d, n)}, -1) && TableOk(files', root)
  {
    hide Names, DirBytes;
    forall e | e in files' && e != d
      ensures Names(files'[e]) == Names(files[e])
    {
      SameNames(files[e], files'[e]);
    }
  }

  lemma SameNames(r: FileRec, r': FileRec)
    requires r'.bytes == r.bytes
    ensures Names(r') == Names(r)
  {}

  lemma UnlinkTaken(files: map<int, FileRec>, files': map<int, FileRec>, root: Word, d: int, n: Str, id: int)
    requires TableOk(files, root) && OnlyTouched(files, files', d, id) && Names(files'[d]) == Names(files[d]) - {n}
    ensures Taken(files, files', d, n) && TableOk(files', root)
  {
    hide Names, DirBytes, Agree, TableOk;
    TouchedAgree(files, files', root, d, n, id);
  }

  lemma LinkBound(files: map<int, FileRec>, files': map<int, FileRec>, root: Word, d: int, n: Str, id: Word)
    requires TableOk(files, root) && OnlyTouched(files, files', d, id) && Names(files'[d]) == Names(files[d])[n := id]
    requires id in files
    ensures Agree(files, files', {(d, n)}, -1) && TableOk(files', root) && Lookup(files', d, n) == Some(id)
  {
    hide Names, DirBytes, Agree, TableOk;
    TouchedAgree(files, files', root, d, n, id);
  }

  /** A changed link count changes no name. */
  lemma CountAgree(files: map<int, FileRec>, files': map<int, FileRec>, root: Word, id: Word, c: Count)
    requires TableOk(files, root) && id in files && files' == files[id as int := files[id].(links := c)]
    ensures Agree(files, files', {}, -1) && TableOk(files', root)
  {
    hide Names, DirBytes;
    forall e | e in files'
      ensures Names(files'[e]) == Names(files[e])
    {
      SameNames(files[e], files'[e]);
    }
  }

  /** The table after Create: a name of an inode that is new. */
  ghost predicate Created(files: map<int, FileRec>, files': map<int, FileRec>, d: Word, n: Str, id: Word, isDir: bool) {
    && d != id && d in files && files[d].isDir && files'.Keys == files.Keys + {id as int}
    && (forall f | f in files && f != d && f != id :: files'[f] == files[f])
    && files'[d].isDir && files'[d].links == files[d].links && DirBytes(files'[d].bytes)
    && Names(files'[d]) == Names(files[d])[n := id]
    && files'[id] == FileRec(isDir, 1, if isDir then DotEntries(id, d) else [])
  }

  lemma CreatedMade(files: map<int, FileRec>, files': map<int, FileRec>, used: set<int>, root: Word, d: Word, n: Str,
          id: Word, isDir: bool)
    requires TreeOk(files, used, root) && id as int !in used && Created(files, files', d, n, id, isDir) && !Dot(n)
    ensures Made(files, files', d, n, id) && TreeOk(files', used + {id as int}, root)
  {
    hide Lookup, TableOk, Created;
    CreatedNames(files, files', root, d, n, id, isDir);
    MadeOk(files, files', used, root, d, n, id);
    CreatedLinks(files, files', d, n, id, isDir);
    forall e, x | !Dot(x) && Lookup(files', e, x).Some? && (e, x) != (d as int, n)
      ensures Lookup(files', e, x) == Lookup(files, e, x)
    {}
  }

  lemma CreatedLinks(files: map<int, FileRec>, files': map<int, FileRec>, d: Word, n: Str, id: Word, isDir: bool)
    requires Created(files, files', d, n, id, isDir)
    ensures id in files' && files'[id].links == 1
    ensures forall f | f in files && f != id :: f in files' && files'[f].links == files[f].links
  {}

  lemma CreatedNames(files: map<int, FileRec>, files': map<int, FileRec>, root: Word, d: Word, n: Str, id: Word,
          isDir: bool)
    requires TableOk(files, root) && Created(files, files', d, n, id, isDir)
    ensures TableOk(files', root) && Agree(files, files', {(d as int, n)}, id) && Lookup(files', d, n) == Some(id)
    ensures forall x | !Dot(x) && (id as int, x) != (d as int, n) :: Lookup(files', id, x).None?
  {
    hide DotEntries, DirBytes, Names;
    DotNames(id, d);
    NamesAre(files'[id]);
    forall e | e in files && e != d && e != id
      ensures Names(files'[e]) == Names(files[e])
    {
      SameNames(files[e], files'[e]);
    }
  }

  lemma NamesAre(r: FileRec)
    ensures Names(r) == Bindings(Entries(r.bytes))
  {}

  /** The table after a try to link, which may have raised the link count in vain. */
  ghost predicate Tried(files: map<int, FileRec>, files': map<int, FileRec>, d: int, n: Str, id: Word, ok: bool) {
    id in files && id != d &&
    if ok then OnlyTouched(files, files', d, id) && Names(files'[d]) == Names(files[d])[n := id] &&
      files'[id].links == Up(files[id].links)
    else files' == files || files' == files[id as int := files[id].(links := Up(files[id].links))]
  }

  /** Only the link counts of `ids` changed. */
  ghost predicate LinksKept(files: map<int, FileRec>, files': map<int, FileRec>, ids: set<int>) {
    files'.Keys == files.Keys && forall f | f in files && f !in ids :: files'[f].links == files[f].links
  }

  /** Nothing changed but the directories ds. */
  ghost predicate OnlyDirs(files: map<int, FileRec>, files': map<int, FileRec>, ds: set<int>) {
    forall f | f in files && f !in ds :: f in files' && files'[f] == files[f]
  }

  lemma TriedStep(files: map<int, FileRec>, files': map<int, FileRec>, root: Word, d: int, n: Str, id: Word, ok: bool)
    requires TableOk(files, root) && Tried(files, files', d, n, id, ok)
    ensures TableOk(files', root) && Agree(files, files', {(d, n)}, -1) && LinksKept(files, files', {id as int})
    ensures Lookup(files', d, n) == if ok then Some(id) else Lookup(files, d, n)
  {
    hide Names, DirBytes, TableOk;
    if ok {
      LinkBound(files, files', root, d, n, id);
    } else if files' != files {
      CountAgree(files, files', root, id, files'[id].links);
    }
  }

  lemma UnlinkStep(files: map<int, FileRec>, files': map<int, FileRec>, root: Word, d: int, n: Str, id: Word)
    requires TableOk(files, root) && OnlyTouched(files, files', d, id) && Names(files'[d]) == Names(files[d]) - {n}
    requires id != d
    ensures Taken(files, files', d, n) && TableOk(files', root) && LinksKept(files, files', {id as int})
  {
    hide Names, DirBytes, Agree, TableOk;
    UnlinkTaken(files, files', root, d, n, id);
  }

  /** The invariant from one table to the next, if every name has the inode its source
      had and the inodes with names have one link. */
  lemma TreeFrom(files: map<int, FileRec>, files': map<int, FileRec>, used: set<int>, root: Word, a: (int, Str),
          b: (int, Str), swap: bool, ids: set<int>)
    requires TreeOk(files, used, root) && TableOk(files', root) && !Dot(a.1) && !Dot(b.1)
    requires forall d, n | !Dot(n) && Lookup(files', d, n).Some? ::
      var p := Source((d, n), a, b, swap); Lookup(files, p.0, p.1) == Lookup(files', d, n)
    requires swap || a == b || Lookup(files', a.0, a.1).None?
    requires LinksKept(files, files', ids)
    requires forall d, n | !Dot(n) && Lookup(files', d, n).Some? && Lookup(files', d, n).value as int in ids ::
      files'[Lookup(files', d, n).value].links == 1
    ensures TreeOk(files', used, root)
  {
    hide Lookup, TableOk, Single;
    SingleFrom(files, files', used, root, a, b, swap);
    forall d, n | !Dot(n) && Lookup(files', d, n).Some?
      ensures Lookup(files', d, n).value in files' && files'[Lookup(files', d, n).value].links == 1
    {
      var p := Source((d, n), a, b, swap);
      assert !Dot(p.1) && Lookup(files, p.0, p.1) == Lookup(files', d, n);
    }
  }

  /** unlink, then link: the name moved if linking succeeded, and was lost otherwise. */
  lemma RelinkStep(f0: map<int, FileRec>, f1: map<int, FileRec>, f2: map<int, FileRec>, used: set<int>, root: Word,
          d1: int, n1: Str, d2: int, n2: Str, v: Word, ok: bool)
    requires TreeOk(f0, used, root) && !Dot(n1) && !Dot(n2) && Lookup(f0, d1, n1) == Some(v) && v != d1
    requires OnlyTouched(f0, f1, d1, v) && Names(f1[d1]) == Names(f0[d1]) - {n1} && v in f1
    requires f1[v].links == Down(f0[v].links)
    requires Tried(f1, f2, d2, n2, v, ok)
    ensures TreeOk(f2, used, root)
    ensures ok ==> Moved(f0, f2, d1, n1, d2, n2) && OnlyDirs(f0, f2, {d1, d2})
    ensures !ok ==> Taken(f0, f2, d1, n1) && OnlyDirs(f0, f2, {d1, v as int})
  {
    hide Lookup, TableOk, Single, Names, DirBytes;
    UnlinkStep(f0, f1, root, d1, n1, v);
    TriedStep(f1, f2, root, d2, n2, v, ok);
    if ok {
      assert f2[v].links == 1;
      TreeFrom(f0, f2, used, root, (d1, n1), (d2, n2), false, {v as int});
      Back(f0, f1, f2, d1, d2, v);
    } else {
      assert forall e, x | (e, x) != (d1, n1) :: Lookup(f2, e, x) == Lookup(f0, e, x);
      NotNamed(f0, f2, root, d1, n1, v);
      TreeFrom(f0, f2, used, root, (d1, n1), (d1, n1), false, {v as int});
    }
  }

  /** The inode whose name was taken has no other. */
  lemma NotNamed(f0: map<int, FileRec>, f2: map<int, FileRec>, root: Word, d1: int, n1: Str, v: Word)
    requires Single(f0, root) && Taken(f0, f2, d1, n1) && !Dot(n1) && Lookup(f0, d1, n1) == Some(v)
    ensures forall d, n | !Dot(n) :: Lookup(f2, d, n) != Some(v)
  {}

  /** A link count taken down and up again is as it was. */
  lemma Back(f0: map<int, FileRec>, f1: map<int, FileRec>, f2: map<int, FileRec>, d1: int, d2: int, v: Word)
    requires OnlyTouched(f0, f1, d1, v) && v in f0 && v in f1 && f1[v].links == Down(f0[v].links)
    requires OnlyTouched(f1, f2, d2, v) && f2[v].links == Up(f1[v].links)
    ensures OnlyDirs(f0, f2, {d1, d2})
  {}

  /** Both names unlinked, then each inode linked under the other's: the names are
      exchanged if both links succeeded, one of them has taken over the inode of the
      other if one did, and both are gone if none did. Only the link count of an inode
      that lost its name is not as it was. */
  lemma ExchangeStep(f0: map<int, FileRec>, f1: map<int, FileRec>, f2: map<int, FileRec>, f3: map<int, FileRec>,
          f4: map<int, FileRec>, used: set<int>, root: Word, d1: int, n1: Str, v: Word, d2: int, n2: Str, w: Word,
          ok1: bool, ok2: bool)
    requires TreeOk(f0, used, root) && !Dot(n1) && !Dot(n2) && Lookup(f0, d1, n1) == Some(v)
    requires Lookup(f0, d2, n2) == Some(w)
    requires (d1, n1) != (d2, n2) && v != d1 && v != d2 && w != d1 && w != d2
    requires OnlyTouched(f0, f1, d1, v) && Names(f1[d1]) == Names(f0[d1]) - {n1} && v in f1
    requires f1[v].links == Down(f0[v].links)
    requires OnlyTouched(f1, f2, d2, w) && Names(f2[d2]) == Names(f1[d2]) - {n2} && w in f2
    requires f2[w].links == Down(f1[w].links)
    requires Tried(f2, f3, d1, n1, w, ok1) && Tried(f3, f4, d2, n2, v, ok2)
    ensures TreeOk(f4, used, root) && Agree(f0, f4, {(d1, n1), (d2, n2)}, -1)
    ensures ok1 && ok2 ==> Swapped(f0, f4, d1, n1, d2, n2)
    ensures !ok1 && ok2 ==> Moved(f0, f4, d1, n1, d2, n2)
    ensures ok1 && !ok2 ==> Moved(f0, f4, d2, n2, d1, n1)
    ensures !ok1 && !ok2 ==> Lookup(f4, d1, n1).None? && Lookup(f4, d2, n2).None?
    ensures OnlyDirs(f0, f4, {d1, d2} + (if ok1 then {} else {w as int}) + if ok2 then {} else {v as int})
  {
    hide Lookup, TableOk, Single, Names, DirBytes;
    UnlinkStep(f0, f1, root, d1, n1, v);
    UnlinkStep(f1, f2, root, d2, n2, w);
    TriedStep(f2, f3, root, d1, n1, w, ok1);
    TriedStep(f3, f4, root, d2, n2, v, ok2);
    assert v != w by { assert Single(f0, root); SingleNames(f0, root, d1, n1, d2, n2); }
    assert (ok1 ==> f4[w].links == 1) && (ok2 ==> f4[v].links == 1);
    assert forall e, x | (e, x) != (d1, n1) && (e, x) != (d2, n2) :: Lookup(f4, e, x) == Lookup(f0, e, x);
    ExchangeNames(f0, f4, used, root, d1, n1, v, d2, n2, w, ok1, ok2);
    assert {(d1, n1), (d2, n2)} == {(d2, n2), (d1, n1)};
    BackBoth(f0, f1, f2, f3, f4, d1, n1, d2, n2, v, w, ok1, ok2);
  }

  lemma SingleNames(files: map<int, FileRec>, root: Word, d1: int, n1: Str, d2: int, n2: Str)
    requires Single(files, root) && !Dot(n1) && !Dot(n2) && (d1, n1) != (d2, n2) && Lookup(files, d1, n1).Some?
    ensures Lookup(files, d1, n1) != Lookup(files, d2, n2)
  {}

  lemma ExchangeNames(f0: map<int, FileRec>, f4: map<int, FileRec>, used: set<int>, root: Word, d1: int, n1: Str,
          v: Word, d2: int, n2: Str, w: Word, ok1: bool, ok2: bool)
    requires TreeOk(f0, used, root) && !Dot(n1) && !Dot(n2) && Lookup(f0, d1, n1) == Some(v)
    requires Lookup(f0, d2, n2) == Some(w) && (d1, n1) != (d2, n2)
    requires TableOk(f4, root) && Agree(f0, f4, {(d1, n1), (d2, n2)}, -1) && LinksKept(f0, f4, {v as int, w as int})
    requires v in f4 && w in f4
    requires Lookup(f4, d1, n1) == (if ok1 then Some(w) else None)
    requires Lookup(f4, d2, n2) == if ok2 then Some(v) else None
    requires (ok1 ==> f4[w].links == 1) && (ok2 ==> f4[v].links == 1)
    ensures TreeOk(f4, used, root)
  {
    hide Lookup, TableOk;
    forall d, n | !Dot(n) && (d, n) != (d1, n1) && (d, n) != (d2, n2)
      ensures Lookup(f4, d, n) == Lookup(f0, d, n) && Lookup(f4, d, n) != Some(v) && Lookup(f4, d, n) != Some(w)
    {
      SingleNames(f0, root, d1, n1, d, n);
      SingleNames(f0, root, d2, n2, d, n);
    }
    TreeFrom(f0, f4, used, root, (d1, n1), (d2, n2), true, {v as int, w as int});
  }

  lemma BackBoth(f0: map<int, FileRec>, f1: map<int, FileRec>, f2: map<int, FileRec>, f3: map<int, FileRec>,
          f4: map<int, FileRec>, d1: int, n1: Str, d2: int, n2: Str, v: Word, w: Word, ok1: bool, ok2: bool)
    requires v != w && v != d1 && v != d2 && w != d1 && w != d2
    requires OnlyTouched(f0, f1, d1, v) && v in f0 && v in f1 && f1[v].links == Down(f0[v].links)
    requires OnlyTouched(f1, f2, d2, w) && w in f1 && w in f2 && f2[w].links == Down(f1[w].links)
    requires Tried(f2, f3, d1, n1, w, ok1) && Tried(f3, f4, d2, n2, v, ok2)
    ensures OnlyDirs(f0, f4, {d1, d2} + (if ok1 then {} else {w as int}) + if ok2 then {} else {v as int})
  {
    hide DirOk, Names;
    var ds := {d1, d2} + (if ok1 then {} else {w as int}) + if ok2 then {} else {v as int};
    forall f | f in f0 && f !in ds
      ensures f in f4 && f4[f] == f0[f]
    {}
  }

  /** A name removed with its inode: the inode is free and nothing leads to it. */
  lemma RemovedStep(files: map<int, FileRec>, files': map<int, FileRec>, used: set<int>, root: Word, d: int, n: Str,
          id: Word)
    requires TreeOk(files, used, root) && !Dot(n) && Lookup(files, d, n) == Some(id)
    requires d in files && DirOk(files[d]) && d in files' && files' == files[d := files'[d]] && DirOk(files'[d])
    requires files'[d].links == files[d].links && Names(files'[d]) == Names(files[d]) - {n}
    ensures Taken(files, files', d, n) && TreeOk(files', used - {id as int}, root) && OnlyDirs(files, files', {d})
  {
    hide Lookup, TableOk, Single, Names, DirBytes;
    UnlinkTaken(files, files', root, d, n, d);
    TakenOk(files, files', used, root, d, n);
    TreeFrom(files, files', used, root, (d, n), (d, n), false, {});
  }

  /** In a tree the inode of a name is neither the directory of the name nor one that is
      not below it. */
  lemma NotBelow(files: map<int, FileRec>, root: Word, q1: Comps, n1: Str, q2: Comps)
    requires Single(files, root) && LeadsToDir(files, root, q1) && LeadsToDir(files, root, q2) && !Dot(n1)
    requires Lookup(files, DirAt(files, root, q1), n1).Some? && !(q1 + [n1] <= q2)
    ensures Lookup(files, DirAt(files, root, q1), n1).value as int !in {DirAt(files, root, q1), DirAt(files, root, q2)}
  {
    hide Lookup, Single;
    WalkStep(files, root, q1 + [n1], q1, n1);
    if Walk(files, root, q1 + [n1]) == Walk(files, root, q1) { SingleOnce(files, root, q1 + [n1], q1); }
    if Walk(files, root, q1 + [n1]) == Walk(files, root, q2) { SingleOnce(files, root, q1 + [n1], q2); }
  }
}
