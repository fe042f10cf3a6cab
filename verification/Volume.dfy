/** Several files on one device: what an operation on one of them does to the others
    and to the areas that hold no file data. */
module Volume {
  import opened Blocks
  import opened BitmapModel
  import opened Tree
  import opened InodeCodec
  import opened Growth
  import opened Shrinkage
  import opened FileSize
  import opened FileBytes
  import opened Device
  import opened Inodes
  import opened InodeFile

  /** All files are stored, each in its own place and in its own blocks. */
  ghost predicate Apart(bm: Area, s: seq<Block>, qs: seq<Inode>) {
    && (forall i | 0 <= i < |qs| :: qs[i].Stored(bm, s))
    && forall i, j | 0 <= i < |qs| && 0 <= j < |qs| && i != j :: Disjoint(bm, s, qs[i], qs[j])
  }

  ghost predicate Disjoint(bm: Area, s: seq<Block>, p: Inode, q: Inode) {
    p.Stored(bm, s) && q.Stored(bm, s) && p.pos != q.pos && q.Map(bm, s).Values !! p.Map(bm, s).Values
  }

  lemma ApartMeans(bm: Area, s: seq<Block>, qs: seq<Inode>)
    requires Apart(bm, s, qs)
    ensures forall i | 0 <= i < |qs| :: qs[i].Stored(bm, s)
    ensures forall i, j | 0 <= i < j < |qs| ::
      qs[i].pos != qs[j].pos && qs[i].Map(bm, s).Values !! qs[j].Map(bm, s).Values
  {
    hide FileOk, GetInode, TreeOf, DataBlocks;
    forall i, j | 0 <= i < j < |qs|
      ensures qs[i].pos != qs[j].pos && qs[i].Map(bm, s).Values !! qs[j].Map(bm, s).Values
    {
      assert Disjoint(bm, s, qs[i], qs[j]);
    }
  }

  ghost predicate FileKept(bm: Area, q: Inode, s0: seq<Block>, s: seq<Block>) {
    q.Placed(bm, s0) && q.Placed(bm, s) && q.Rec(bm, s) == q.Rec(bm, s0) && q.Map(bm, s) == q.Map(bm, s0) &&
      q.Bytes(bm, s) == q.Bytes(bm, s0)
  }

  /** File p is in order before and after, and everything else was spared. */
  ghost predicate OneChanged(bm: Area, p: Inode, s0: seq<Block>, s: seq<Block>, at: set<int>) {
    && p.Stored(bm, s0) && p.Stored(bm, s) && p.OthersKept(bm, s0, s)
    && Spares(bm, p.Map(bm, s0).Values, p.Map(bm, s).Values, s0, s, at)
  }

  /** What an operation on file p does to another file q: nothing. */
  lemma Neighbour(bm: Area, p: Inode, q: Inode, s0: seq<Block>, s: seq<Block>, at: set<int>)
    requires OneChanged(bm, p, s0, s, at) && Disjoint(bm, s0, p, q) && q.pos.block !in at - {p.pos.block}
    ensures FileKept(bm, q, s0, s) && Disjoint(bm, s, p, q)
    ensures q.Placed(bm, s0) && q.Placed(bm, s) && q.Rec(bm, s) == q.Rec(bm, s0)
    ensures q.Map(bm, s) == q.Map(bm, s0) && q.Bytes(bm, s) == q.Bytes(bm, s0)
  {
    hide GetInode, FileOk, TreeOf, Spares, DataBlocks, Contents;
    var r := q.Rec(bm, s0);
    SameInode(bm, p, q, s0, s, p.Map(bm, s0).Values, p.Map(bm, s).Values, at);
    FileSpared(bm, r.root, s0, s, r.size, p.Map(bm, s0).Values, p.Map(bm, s).Values, at);
  }

  lemma SameInode(bm: Area, p: Inode, q: Inode, s0: seq<Block>, s: seq<Block>, own0: set<int>, own1: set<int>,
          at: set<int>)
    requires p.Placed(bm, s0) && p.Placed(bm, s) && q.Placed(bm, s0) && p.pos != q.pos
    requires Spares(bm, own0, own1, s0, s, at) && p.OthersKept(bm, s0, s) && q.pos.block !in at - {p.pos.block}
    ensures q.Placed(bm, s) && q.Rec(bm, s) == q.Rec(bm, s0)
  {
    hide GetInode, Used;
    assert q.pos.block == p.pos.block ==> q.pos.slot != p.pos.slot;
  }

  /** A file is as it was after a change of another. */
  lemma FileSpared(bm: Area, t: Root, s0: seq<Block>, s: seq<Block>, size: nat, own0: set<int>, own1: set<int>,
          at: set<int>)
    requires FileOk(bm, t, s0, DataBlocks(size)) && TreeOf(t, s0, DataBlocks(size)).Values !! own0
    requires Spares(bm, own0, own1, s0, s, at)
    ensures FileOk(bm, t, s, DataBlocks(size)) && TreeOf(t, s, DataBlocks(size)) == TreeOf(t, s0, DataBlocks(size))
    ensures Contents(t, s, size) == Contents(t, s0, size) && TreeOf(t, s, DataBlocks(size)).Values !! own1
  {
    hide Used, DataBlocks, Id, Contents, Points, TreeOf;
    var n := DataBlocks(size);
    var m := TreeOf(t, s0, n);
    FileFacts(bm, t, s0, n);
    forall v | v in m.Values
      ensures v in Used(bm, s0) && v !in own0 && v in Used(bm, s) && v !in own1
    {
      assert v in Used(bm, s0) - own0;
    }
    assert forall x | x in m :: m[x] in m.Values;
    RepFrame(t, s0, s, m, bm.offset, bm.Limit());
    RepTree(t, s, m, n, bm.offset, bm.Limit());
    SameContents(bm, t, s0, s, size);
  }

  lemma SameContents(bm: Area, t: Root, s0: seq<Block>, s: seq<Block>, size: nat)
    requires FileOk(bm, t, s0, DataBlocks(size)) && FileOk(bm, t, s, DataBlocks(size))
    requires TreeOf(t, s, DataBlocks(size)) == TreeOf(t, s0, DataBlocks(size))
    requires forall x | x in TreeOf(t, s0, DataBlocks(size)) ::
      && 0 <= TreeOf(t, s0, DataBlocks(size))[x] < |s| == |s0|
      && s[TreeOf(t, s0, DataBlocks(size))[x]] == s0[TreeOf(t, s0, DataBlocks(size))[x]]
    ensures Contents(t, s, size) == Contents(t, s0, size)
  {
    hide FileOk, TreeOf, Id, DataBlocks;
    var n := DataBlocks(size);
    forall k | 0 <= k < size
      ensures ByteAt(t, s, k) == ByteAt(t, s0, k)
    {
      MappedBlock(bm, t, s0, n, BlockIn(size, k));
      MappedBlock(bm, t, s, n, BlockIn(size, k));
    }
  }

  /** Files that are apart stay apart when one of them is written or changes its size,
      and the others keep inode, block map and bytes. */
  lemma ApartAfter(bm: Area, qs: seq<Inode>, i: nat, s0: seq<Block>, s: seq<Block>, at: set<int>)
    requires Apart(bm, s0, qs) && i < |qs| && OneChanged(bm, qs[i], s0, s, at)
    requires forall j | 0 <= j < |qs| && j != i :: qs[j].pos.block !in at - {qs[i].pos.block}
    ensures Apart(bm, s, qs)
    ensures forall j | 0 <= j < |qs| && j != i :: FileKept(bm, qs[j], s0, s)
  {
    hide OneChanged, FileKept, FileOk, GetInode, TreeOf, DataBlocks;
    assert qs[i].Stored(bm, s) by { StoredAfter(bm, qs[i], s0, s, at); }
    forall j | 0 <= j < |qs| && j != i
      ensures FileKept(bm, qs[j], s0, s) && Disjoint(bm, s, qs[i], qs[j])
    {
      Neighbour(bm, qs[i], qs[j], s0, s, at);
    }
    forall j, k | 0 <= j < |qs| && 0 <= k < |qs| && j != k
      ensures Disjoint(bm, s, qs[j], qs[k])
    {
      if j != i && k != i { BothUntouched(bm, qs[j], qs[k], s0, s); }
    }
  }

  lemma StoredAfter(bm: Area, p: Inode, s0: seq<Block>, s: seq<Block>, at: set<int>)
    requires OneChanged(bm, p, s0, s, at)
    ensures p.Stored(bm, s)
  {
    hide FileOk, GetInode, TreeOf, DataBlocks, Spares;
  }

  lemma BothUntouched(bm: Area, p: Inode, q: Inode, s0: seq<Block>, s: seq<Block>)
    requires FileKept(bm, p, s0, s) && FileKept(bm, q, s0, s) && p.Stored(bm, s) && q.Stored(bm, s)
    requires Disjoint(bm, s0, p, q)
    ensures Disjoint(bm, s, p, q)
  {
    hide FileOk, GetInode, TreeOf, DataBlocks;
  }

  /** A run of size changes, each of a file by its number. */
  type Changes = seq<(nat, Word)>

  /** At its turn the k-th change may find the file at this size: that it had at first,
      or one that it was given earlier. */
  ghost predicate MayHave(bm: Area, s: seq<Block>, qs: seq<Inode>, changes: Changes, k: nat, size: Word)
    requires k < |changes| && changes[k].0 < |qs| && qs[changes[k].0].Placed(bm, s)
  {
    size == qs[changes[k].0].Rec(bm, s).size || exists j :: 0 <= j < k && changes[j] == (changes[k].0, size)
  }

  /** The stray write of the k-th change stays below the bitmap, whatever the size of
      the file then, and does not hit the inode of a file. */
  ghost predicate StrayMissesAll(bm: Area, s: seq<Block>, qs: seq<Inode>, changes: Changes, k: nat, repaired: bool)
    requires k < |changes| && changes[k].0 < |qs| && qs[changes[k].0].Placed(bm, s)
  {
    forall size: Word {:trigger StrayOf(size, changes[k].1, repaired)} | MayHave(bm, s, qs, changes, k, size) ::
      MissesAll(bm, qs, StrayOf(size, changes[k].1, repaired))
  }

  ghost predicate MissesAll(bm: Area, qs: seq<Inode>, stray: int) {
    stray < bm.start && forall q | q in qs :: q.pos.block != stray
  }

  /** The changes are of files of the list, and their stray writes miss all inodes. */
  ghost predicate Safe(bm: Area, s: seq<Block>, qs: seq<Inode>, changes: Changes, repaired: bool) {
    forall k {:trigger changes[k]} | 0 <= k < |changes| ::
      && changes[k].0 < |qs| && qs[changes[k].0].Placed(bm, s)
      && StrayMissesAll(bm, s, qs, changes, k, repaired)
  }

  /** One change of a run, from s0 to s: it succeeds for a plain file if the ids suffice,
      the file has its new size then and keeps its bytes, and no other file changes. */
  ghost predicate OneChange(bm: Area, qs: seq<Inode>, i: nat, size: Word, s0: seq<Block>, s: seq<Block>, ok: bool) {
    && i < |qs| && qs[i].Placed(bm, s0) && qs[i].Placed(bm, s) && bm.Fits(s0)
    && (ok <==> qs[i].Rec(bm, s0).kind == FILE && GrowthFits(bm, s0, qs[i].Rec(bm, s0).size, size))
    && (if ok then Resized(qs[i].Bytes(bm, s0), qs[i].Bytes(bm, s), size)
        else qs[i].Bytes(bm, s) == qs[i].Bytes(bm, s0))
    && forall j | 0 <= j < |qs| && j != i :: FileKept(bm, qs[j], s0, s)
  }

  lemma OneChangeMeans(bm: Area, qs: seq<Inode>, i: nat, size: Word, s0: seq<Block>, s: seq<Block>, ok: bool)
    requires OneChange(bm, qs, i, size, s0, s, ok)
    ensures i < |qs| && qs[i].Placed(bm, s0) && qs[i].Placed(bm, s) && bm.Fits(s0)
    ensures ok <==> qs[i].Rec(bm, s0).kind == 0 && GrowthFits(bm, s0, qs[i].Rec(bm, s0).size, size)
    ensures |qs[i].Bytes(bm, s)| == if ok then size else |qs[i].Bytes(bm, s0)|
    ensures forall k | 0 <= k < |qs[i].Bytes(bm, s0)| && k < |qs[i].Bytes(bm, s)| ::
      qs[i].Bytes(bm, s)[k] == qs[i].Bytes(bm, s0)[k]
    ensures forall j | 0 <= j < |qs| && j != i ::
      && qs[j].Placed(bm, s0) && qs[j].Placed(bm, s) && qs[j].Rec(bm, s) == qs[j].Rec(bm, s0)
      && qs[j].Bytes(bm, s) == qs[j].Bytes(bm, s0)
  {
    hide GetInode, TreeOf, Contents, GrowthFits;
    if ok { ResizedMeans(qs[i].Bytes(bm, s0), qs[i].Bytes(bm, s), size); }
  }

  lemma OneChangeIs(bm: Area, qs: seq<Inode>, i: nat, size: Word, s0: seq<Block>, s: seq<Block>, ok: bool)
    requires i < |qs| && qs[i].Placed(bm, s0) && qs[i].Placed(bm, s) && bm.Fits(s0)
    requires ok <==> qs[i].Rec(bm, s0).kind == FILE && GrowthFits(bm, s0, qs[i].Rec(bm, s0).size, size)
    requires if ok then Resized(qs[i].Bytes(bm, s0), qs[i].Bytes(bm, s), size)
             else qs[i].Bytes(bm, s) == qs[i].Bytes(bm, s0)
    requires forall j | 0 <= j < |qs| && j != i :: FileKept(bm, qs[j], s0, s)
    ensures OneChange(bm, qs, i, size, s0, s, ok)
  {}

  /** The run so far. */
  ghost predicate Changed(bm: Area, qs: seq<Inode>, changes: Changes, views: seq<seq<Block>>, oks: seq<bool>) {
    && |views| == |oks| + 1 && |oks| <= |changes|
    && forall k {:trigger oks[k]} | 0 <= k < |oks| ::
         OneChange(bm, qs, changes[k].0, changes[k].1, views[k], views[k + 1], oks[k])
  }

  lemma ChangedNext(bm: Area, qs: seq<Inode>, changes: Changes, views: seq<seq<Block>>, oks: seq<bool>, s: seq<Block>,
          ok: bool)
    requires Changed(bm, qs, changes, views, oks) && |oks| < |changes|
    requires OneChange(bm, qs, changes[|oks|].0, changes[|oks|].1, views[|oks|], s, ok)
    ensures Changed(bm, qs, changes, views + [s], oks + [ok])
  {
    hide OneChange;
    forall k {:trigger (oks + [ok])[k]} | 0 <= k < |oks| + 1
      ensures OneChange(bm, qs, changes[k].0, changes[k].1, (views + [s])[k], (views + [s])[k + 1], (oks + [ok])[k])
    {
      if k < |oks| { assert oks[k] == (oks + [ok])[k]; }
    }
  }

  /** Any run of size changes on any number of files keeps all trees in order, distinct
      and allocated, whether or not there is room each time. The device is views[k] before
      change k. */
  method ResizeFiles(qs: seq<Inode>, changes: Changes, repaired: bool, dev: BlockDevice, bm: Area)
    returns (oks: seq<bool>, ghost views: seq<seq<Block>>)
    requires dev.Valid() && bm.Fits(dev.View()) && Apart(bm, dev.View(), qs)
    requires Safe(bm, dev.View(), qs, changes, repaired)
    modifies dev, dev.disk, dev.cache
    ensures dev.Valid() && Apart(bm, dev.View(), qs)
    ensures |oks| == |changes| == |views| - 1 && views[0] == old(dev.View()) && views[|oks|] == dev.View()
    ensures forall k {:trigger oks[k]} | 0 <= k < |oks| ::
      OneChange(bm, qs, changes[k].0, changes[k].1, views[k], views[k + 1], oks[k])
  {
    hide BlockDevice.Valid, Apart, Spares, FileOk, TreeOf, GetInode, Contents, DataBlocks, SizeChanged, GrowthFits,
      Area.Fits, StrayOf, Inode.OthersKept, Inode.NeighboursLost, FileKept, OneChanged, OneChange, Resized;
    ghost var s := dev.View();
    oks, views := [], [s];
    SizesStart(bm, s, qs, changes);
    var k := 0;
    while k < |changes|
      invariant 0 <= k <= |changes| && dev.Valid() && bm.Fits(dev.View()) && Apart(bm, dev.View(), qs)
      invariant SizesKnown(bm, s, dev.View(), qs, changes, k)
      invariant |oks| == k && Changed(bm, qs, changes, views, oks) && views[0] == s && views[k] == dev.View()
    {
      var (i, size) := changes[k];
      ghost var s0 := dev.View();
      ApartStored(bm, s0, qs, i);
      NextSize(bm, s, s0, qs, changes, k, repaired);
      var ok := qs[i].Resize(size, repaired, dev, bm);
      ghost var at := {StrayOf(qs[i].Rec(bm, s0).size, size, repaired), qs[i].pos.block as int};
      OneResized(bm, qs[i], s0, dev.View(), at);
      ApartAfter(bm, qs, i, s0, dev.View(), at);
      SizesStep(bm, s, s0, dev.View(), qs, changes, k, ok);
      if ok { ChangedFacts(bm, qs[i].Rec(bm, s0), s0, qs[i].Rec(bm, dev.View()), dev.View()); }
      OneChangeIs(bm, qs, i, size, s0, dev.View(), ok);
      ChangedNext(bm, qs, changes, views, oks, dev.View(), ok);
      oks, views := oks + [ok], views + [dev.View()];
      k := k + 1;
    }
  }

  /** Each file has the size that it had at first, or one that the first k changes gave it. */
  ghost predicate SizesKnown(bm: Area, s: seq<Block>, s': seq<Block>, qs: seq<Inode>, changes: Changes, k: nat) {
    forall i {:trigger qs[i]} | 0 <= i < |qs| ::
      && qs[i].Placed(bm, s) && qs[i].Placed(bm, s')
      && (|| qs[i].Rec(bm, s').size == qs[i].Rec(bm, s).size
          || exists j :: 0 <= j < k && j < |changes| && changes[j] == (i, qs[i].Rec(bm, s').size))
  }

  lemma SizesStart(bm: Area, s: seq<Block>, qs: seq<Inode>, changes: Changes)
    requires Apart(bm, s, qs)
    ensures SizesKnown(bm, s, s, qs, changes, 0)
  {}

  lemma NextSize(bm: Area, s: seq<Block>, s': seq<Block>, qs: seq<Inode>, changes: Changes, k: nat, repaired: bool)
    requires k < |changes| && Safe(bm, s, qs, changes, repaired) && SizesKnown(bm, s, s', qs, changes, k)
    ensures var (i, size) := changes[k];
      && i < |qs| && qs[i].Placed(bm, s') && qs[i].StrayBelow(bm, s', size, repaired)
      && MissesAll(bm, qs, StrayOf(qs[i].Rec(bm, s').size, size, repaired))
  {
    hide GetInode, StrayOf;
    var (i, size) := changes[k];
    assert MayHave(bm, s, qs, changes, k, qs[i].Rec(bm, s').size);
  }

  lemma SizesStep(bm: Area, s: seq<Block>, s0: seq<Block>, s1: seq<Block>, qs: seq<Inode>, changes: Changes, k: nat,
          ok: bool)
    requires k < |changes| && changes[k].0 < |qs| && SizesKnown(bm, s, s0, qs, changes, k)
    requires var (i, size) := changes[k];
      && qs[i].Placed(bm, s1) && qs[i].Placed(bm, s0)
      && qs[i].Rec(bm, s1).size == (if ok then size else qs[i].Rec(bm, s0).size)
      && forall j | 0 <= j < |qs| && j != i :: FileKept(bm, qs[j], s0, s1)
    ensures SizesKnown(bm, s, s1, qs, changes, k + 1)
  {
    hide GetInode, FileOk, TreeOf, Contents, DataBlocks;
  }

  lemma OneResized(bm: Area, p: Inode, s0: seq<Block>, s: seq<Block>, at: set<int>)
    requires p.Stored(bm, s0) && p.Stored(bm, s) && p.OthersKept(bm, s0, s)
    requires Spares(bm, p.Map(bm, s0).Values, p.Map(bm, s).Values, s0, s, at)
    ensures OneChanged(bm, p, s0, s, at)
  {}

  lemma ApartStored(bm: Area, s: seq<Block>, qs: seq<Inode>, i: nat)
    requires Apart(bm, s, qs) && i < |qs|
    ensures qs[i].Stored(bm, s) && qs[i] in qs
  {}

  /** Growing a file and cutting it back gives back every id and every position. */
  lemma GrowThenShrink(bm: Area, m0: map<Node, int>, m1: map<Node, int>, m2: map<Node, int>, n: nat, s0: seq<Block>,
          s1: seq<Block>, s2: seq<Block>, extra: int, inode: int)
    requires bm.Fits(s0) && bm.Fits(s1) && m0.Keys == Nodes(n)
    requires GrownExactly(bm, m0, m1, s0, s1) && ShrunkExactly(bm, m1, m2, n, s1, s2, extra, inode)
    requires m0.Values <= Used(bm, s0)
    ensures m2 == m0 && bm.Fits(s2) && Used(bm, s2) == Used(bm, s0)
  {
    hide Used;
    assert forall x :: x in m0 <==> x in Nodes(n);
    assert m2 == m0;
  }

  /** A new file: no blocks. */
  lemma FreshFile(bm: Area, t: Root, s: seq<Block>)
    requires Laid(bm, s) && |t.direct| == DIRECT && t.indirect1 == 0 && t.indirect2 == 0
    ensures FileOk(bm, t, s, 0) && TreeOf(t, s, 0) == map[]
  {
    assert forall x: Node :: x !in Nodes(0);
  }

  /** Below the bitmap - super block, inode bitmap, inodes - a grow changes nothing,
      and a shrink nothing but the block of its inode and the stray block. */
  lemma MetadataSpared(bm: Area, m0: map<Node, int>, m1: map<Node, int>, n: nat, s0: seq<Block>, s: seq<Block>,
          extra: int, inode: int)
    requires forall x | x in m1 :: bm.Manages(m1[x])
    requires bm.start + bm.num <= bm.offset && bm.Fits(s0) && bm.Fits(s)
    requires GrownExactly(bm, m0, m1, s0, s) || ShrunkExactly(bm, m0, m1, n, s0, s, extra, inode)
    ensures |s| == |s0|
    ensures forall b | 0 <= b < bm.start && b != extra && b != inode :: s[b] == s0[b]
  {
    hide Used;
  }

  /** The super block survives a shrink of the source, which writes its trimmed index
      buffer to a block of the wrong number, exactly when that number is not 0. */
  lemma SuperBlockKept(bm: Area, m0: map<Node, int>, m1: map<Node, int>, n: nat, s0: seq<Block>, s: seq<Block>,
          extra: int, inode: int)
    requires bm.start > 0 && bm.start + bm.num <= bm.offset && inode != 0 && 0 < |s0| && bm.Limit() <= 0x5342_5355
    requires (forall x | x in m0 :: bm.Manages(m0[x])) && m1 == Cut(m0, n)
    requires ShrunkExactly(bm, m0, m1, n, s0, s, extra, inode)
    requires extra == (if n > SINGLE then (n - SINGLE - 1) / WORDS else -1)
    requires 0 <= extra != inode ==> ClobberedBy(s, m0, extra, (n - SINGLE - 1) % WORDS + 1)
    requires GetWord(s0[0], 0) == 0x5342_5355
    ensures 0 < |s| && (GetWord(s[0], 0) == 0x5342_5355 <==> n <= SINGLE || n > SINGLE + WORDS)
  {
    hide Used, GetWord;
    MetadataSpared(bm, m0, m1, n, s0, s, extra, inode);
    if extra == 0 {
      assert PointerOf(m0, Data(SINGLE + WORDS * 0 + 0), GetWord(s[0], 0));
    }
  }
}
