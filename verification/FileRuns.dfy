/** Whole runs of requests against the files of a device. */
module FileRuns {
  import opened Blocks
  import opened BitmapModel
  import opened Tree
  import opened InodeCodec
  import opened Growth
  import opened FileSize
  import opened FileBytes
  import opened Device
  import opened Inodes
  import opened InodeFile
  import opened Volume

  datatype Request =
    | Read(file: nat, offset: Word, len: Word, buf: seq<byte>)
    | Write(file: nat, offset: Word, len: Word, buf: seq<byte>)
    | Resize(file: nat, size: Word)

  datatype Reply = Got(ret: int, buf: seq<byte>) | Put(ret: int) | Sized(ok: bool)

  /** What each file holds. */
  type Files = seq<seq<byte>>

  /** The request is for one of n files, and its end is a 32-bit number. */
  ghost predicate Sound(r: Request, n: nat) {
    r.file < n && (!r.Resize? ==> r.len as int <= |r.buf| && r.offset + r.len < U32)
  }

  /** What a request does, and what it is answered, where each file is its bytes and
      nothing else. Of the files some are no plain files, and keep their size. */
  ghost predicate Answers(c: Files, c': Files, plain: seq<bool>, r: Request, a: Reply)
    requires Sound(r, |c|) && |c| == |plain|
  {
    && |c'| == |c| && (forall i | 0 <= i < |c| && i != r.file :: c'[i] == c[i])
    && |c[r.file]| < U32
    && match r
       case Read(i, offset, len, buf) => a.Got? && ReadOf(c[i], offset, len, buf, a.ret, a.buf) && c' == c
       case Write(i, offset, len, buf) => a.Put? && WriteOf(c[i], c'[i], offset, len, buf, a.ret)
       case Resize(i, size) => a.Sized? && a.ok == plain[i] && if a.ok then Resized(c[i], c'[i], size) else c' == c
  }

  /** The size that a request may give to its file. */
  ghost function Asked(r: Request): nat {
    match r
    case Read(_, _, _, _) => 0
    case Write(_, offset, len, _) => offset + len
    case Resize(_, size) => size
  }

  /** The ids it may take for that. */
  ghost function Need(r: Request): nat {
    if r.Read? then 0 else NodeCount(DataBlocks(Asked(r)))
  }

  ghost function Needs(rs: seq<Request>): nat {
    if rs == [] then 0 else Needs(rs[..|rs| - 1]) + Need(rs[|rs| - 1])
  }

  lemma {:induction false} NeedsPart(rs: seq<Request>, k: nat)
    requires k <= |rs|
    ensures Needs(rs[..k]) <= Needs(rs)
    decreases |rs|
  {
    if k < |rs| {
      NeedsPart(rs[..|rs| - 1], k);
      assert rs[..|rs| - 1][..k] == rs[..k];
    } else {
      assert rs[..k] == rs;
    }
  }

  lemma NeedsNext(rs: seq<Request>, k: nat)
    requires k < |rs|
    ensures Needs(rs[..k + 1]) == Needs(rs[..k]) + Need(rs[k])
  {
    hide Need;
    assert rs[..k + 1][..k] == rs[..k] && rs[..k + 1][k] == rs[k];
  }

  /** The size a file had at first, or that one of the first k requests asked for. */
  ghost predicate PossibleSize(c: Files, rs: seq<Request>, k: nat, i: nat, size: nat) {
    || (i < |c| && size == |c[i]|)
    || exists j {:trigger rs[j]} :: 0 <= j < k && j < |rs| && rs[j].file == i && Asked(rs[j]) == size
  }

  /** Whatever size the file has at its turn, the stray write of a resize misses all
      inodes and stays below the bitmap. */
  ghost predicate StraysMiss(bm: Area, qs: seq<Inode>, c: Files, rs: seq<Request>, repaired: bool) {
    forall k, size: nat {:trigger PossibleSize(c, rs, k, rs[k].file, size)} |
      0 <= k < |rs| && rs[k].Resize? && PossibleSize(c, rs, k, rs[k].file, size) ::
      MissesAll(bm, qs, StrayOf(size, rs[k].size, repaired))
  }

  /** The files on the device hold c. */
  ghost predicate Hold(bm: Area, s: seq<Block>, qs: seq<Inode>, c: Files, plain: seq<bool>) {
    && Apart(bm, s, qs) && |c| == |plain| == |qs|
    && forall i | 0 <= i < |qs| :: HoldsAt(bm, s, qs[i], c[i], plain[i])
  }

  ghost predicate HoldsAt(bm: Area, s: seq<Block>, q: Inode, c: seq<byte>, plain: bool) {
    q.Stored(bm, s) && q.Bytes(bm, s) == c && (plain <==> q.Rec(bm, s).kind == FILE)
  }

  /** There is room for n more ids. */
  ghost predicate Room(bm: Area, s: seq<Block>, n: nat) {
    bm.Fits(s) && |Used(bm, s)| + n <= bm.num * BLOCK_BITS
  }

  lemma HoldAt(bm: Area, s: seq<Block>, qs: seq<Inode>, c: Files, plain: seq<bool>, i: nat)
    requires Hold(bm, s, qs, c, plain) && i < |qs|
    ensures |c| == |plain| == |qs| && HoldsAt(bm, s, qs[i], c[i], plain[i]) && qs[i].Stored(bm, s) && qs[i] in qs
    ensures |c[i]| == qs[i].Rec(bm, s).size
    ensures qs[i].Bytes(bm, s) == c[i] && (plain[i] <==> qs[i].Rec(bm, s).kind == 0)
  {
    hide FileOk, GetInode, TreeOf, DataBlocks;
  }

  /** One file has changed. */
  lemma HoldAfter(bm: Area, s0: seq<Block>, s: seq<Block>, qs: seq<Inode>, c: Files, plain: seq<bool>, i: nat,
          b: seq<byte>, at: set<int>)
    requires i < |qs| == |c| == |plain| && Hold(bm, s0, qs, c, plain) && OneChanged(bm, qs[i], s0, s, at)
    requires forall j | 0 <= j < |qs| && j != i :: qs[j].pos.block !in at - {qs[i].pos.block}
    requires NowHolds(bm, s0, s, qs[i], b)
    ensures Hold(bm, s, qs, c[i := b], plain)
  {
    hide FileOk, GetInode, TreeOf, Contents, DataBlocks, OneChanged, Apart;
    ApartAfter(bm, qs, i, s0, s, at);
    forall j | 0 <= j < |qs|
      ensures HoldsAt(bm, s, qs[j], c[i := b][j], plain[j])
    {
      HoldAt(bm, s0, qs, c, plain, j);
      if j != i { ApartStored(bm, s, qs, j); }
    }
  }

  /** The file holds b now, and is of the same kind. */
  ghost predicate NowHolds(bm: Area, s0: seq<Block>, s: seq<Block>, q: Inode, b: seq<byte>) {
    q.Placed(bm, s0) && q.Stored(bm, s) && q.Bytes(bm, s) == b && q.Rec(bm, s).kind == q.Rec(bm, s0).kind
  }

  method ServeRead(qs: seq<Inode>, i: nat, offset: Word, len: Word, buf: seq<byte>, dev: BlockDevice, bm: Area,
                   ghost c: Files, ghost plain: seq<bool>)
    returns (a: Reply)
    requires dev.Valid() && i < |qs| == |c| == |plain| && Hold(bm, dev.View(), qs, c, plain)
    requires len as int <= |buf| && offset + len < U32
    modifies dev, dev.disk, dev.cache
    ensures dev.Valid() && Hold(bm, dev.View(), qs, c, plain)
    ensures |c[i]| < U32 && a.Got? && ReadOf(c[i], offset, len, buf, a.ret, a.buf)
    ensures bm.Fits(dev.View()) && bm.Fits(old(dev.View())) && Used(bm, dev.View()) == Used(bm, old(dev.View()))
  {
    hide BlockDevice.Valid, Apart, FileOk, GetInode, TreeOf, Contents, DataBlocks, Spares, OneChanged, Returns,
      MovedBytes, Hold, Used, Area.Fits;
    ghost var s := dev.View();
    HoldAt(bm, s, qs, c, plain, i);
    var q := qs[i];
    var ret, back := q.ReadData(offset, buf, len, dev, bm);
    OneResized(bm, q, s, dev.View(), {q.pos.block as int});
    HoldAfter(bm, s, dev.View(), qs, c, plain, i, c[i], {q.pos.block as int});
    assert c[i := c[i]] == c;
    a := Got(ret, back);
  }

  method ServeWrite(qs: seq<Inode>, i: nat, offset: Word, len: Word, buf: seq<byte>, dev: BlockDevice, bm: Area,
                    ghost c: Files, ghost plain: seq<bool>)
    returns (a: Reply, ghost b: seq<byte>)
    requires dev.Valid() && i < |qs| == |c| == |plain| && Hold(bm, dev.View(), qs, c, plain)
    requires len as int <= |buf| && offset + len < U32 && Room(bm, dev.View(), NodeCount(DataBlocks(offset + len)))
    modifies dev, dev.disk, dev.cache
    ensures dev.Valid() && Hold(bm, dev.View(), qs, c[i := b], plain)
    ensures |c[i]| < U32 && a.Put? && WriteOf(c[i], b, offset, len, buf, a.ret)
    ensures bm.Fits(dev.View()) && bm.Fits(old(dev.View()))
    ensures |Used(bm, dev.View())| <= |Used(bm, old(dev.View()))| + NodeCount(DataBlocks(offset + len))
  {
    hide BlockDevice.Valid, Apart, FileOk, GetInode, TreeOf, Contents, DataBlocks, NodeCount, Spares, OneChanged,
      WriteOf, Hold, Used, Area.Fits;
    ghost var s := dev.View();
    HoldAt(bm, s, qs, c, plain, i);
    var q := qs[i];
    var ret := q.WriteData(offset, buf, len, dev, bm);
    b := q.Bytes(bm, dev.View());
    OneResized(bm, q, s, dev.View(), {q.pos.block as int});
    HoldAfter(bm, s, dev.View(), qs, c, plain, i, b, {q.pos.block as int});
    a := Put(ret);
  }

  method ServeResize(qs: seq<Inode>, i: nat, size: Word, repaired: bool, dev: BlockDevice, bm: Area, ghost c: Files,
          ghost plain: seq<bool>)
    returns (a: Reply, ghost b: seq<byte>)
    requires dev.Valid() && i < |qs| == |c| == |plain| && Hold(bm, dev.View(), qs, c, plain)
    requires Room(bm, dev.View(), NodeCount(DataBlocks(size))) && MissesAll(bm, qs, StrayOf(|c[i]|, size, repaired))
    modifies dev, dev.disk, dev.cache
    ensures dev.Valid() && Hold(bm, dev.View(), qs, c[i := b], plain)
    ensures |c[i]| < U32 && a.Sized? && a.ok == plain[i] && if a.ok then Resized(c[i], b, size) else b == c[i]
    ensures bm.Fits(dev.View()) && bm.Fits(old(dev.View()))
    ensures |Used(bm, dev.View())| <= |Used(bm, old(dev.View()))| + NodeCount(DataBlocks(size))
  {
    hide BlockDevice.Valid, Apart, FileOk, GetInode, TreeOf, Contents, DataBlocks, NodeCount, Spares, OneChanged,
      SizeChanged, Hold, Used, Area.Fits, StrayOf, Inode.NeighboursLost, Resized;
    ghost var s := dev.View();
    HoldAt(bm, s, qs, c, plain, i);
    var q := qs[i];
    var ok := q.Resize(size, repaired, dev, bm);
    b := q.Bytes(bm, dev.View());
    ghost var at := {StrayOf(|c[i]|, size, repaired), q.pos.block as int};
    if ok {
      ChangedFacts(bm, q.Rec(bm, s), s, q.Rec(bm, dev.View()), dev.View());
      UsedCount(bm, q.Rec(bm, s), s, q.Rec(bm, dev.View()), dev.View(), at);
    }
    OneResized(bm, q, s, dev.View(), at);
    HoldAfter(bm, s, dev.View(), qs, c, plain, i, b, at);
    a := Sized(ok);
  }

  /** Each request is answered, from the contents that the earlier ones left. */
  ghost predicate Answered(states: seq<Files>, plain: seq<bool>, rs: seq<Request>, replies: seq<Reply>) {
    && |states| == |replies| + 1 && |replies| <= |rs|
    && forall k | 0 <= k < |replies| :: AnsweredAt(states, plain, rs, replies, k)
  }

  ghost predicate AnsweredAt(states: seq<Files>, plain: seq<bool>, rs: seq<Request>, replies: seq<Reply>, k: nat) {
    && k < |rs| && k < |replies| && k + 1 < |states|
    && Sound(rs[k], |states[k]|) && |states[k]| == |plain|
    && Answers(states[k], states[k + 1], plain, rs[k], replies[k])
  }

  /** The k-th reply in bytes, where ends are below 2 GiB: a read returns what there is, a
      write puts its bytes in place, a resize keeps the bytes that stay. */
  lemma AnsweredMeans(states: seq<Files>, plain: seq<bool>, rs: seq<Request>, replies: seq<Reply>, k: nat)
    requires Answered(states, plain, rs, replies) && k < |replies|
    ensures |states| == |replies| + 1 && k < |rs| && |states[k]| == |states[k + 1]| == |plain|
    ensures rs[k].file < |plain| && |states[k][rs[k].file]| < 0x1_0000_0000
    ensures forall i | 0 <= i < |plain| && i != rs[k].file :: states[k + 1][i] == states[k][i]
    ensures rs[k].Read? ==>
      var Read(i, offset, len, buf0) := rs[k]; var c := states[k][i];
      && replies[k].Got? && states[k + 1] == states[k]
      && (offset > |c| ==> replies[k].buf == buf0 && replies[k].ret == if len == 0 then 0 else -1)
      && (offset <= |c| && offset + len < 0x8000_0000 ==>
          var n := if len <= |c| - offset then len else |c| - offset;
          && n <= |buf0| && replies[k].buf == c[offset..offset + n] + buf0[n..]
          && (replies[k].ret == n || (len > 0 && offset == |c| && |c| % 4096 == 0 && replies[k].ret == -1)))
    ensures rs[k].Write? && 0 < rs[k].len && rs[k].offset + rs[k].len < 0x8000_0000 ==>
      var Write(i, offset, len, buf) := rs[k]; var c, c' := states[k][i], states[k + 1][i];
      && replies[k] == Put(len) && |c'| == (if |c| < offset + len then offset + len else |c|)
      && len as int <= |buf| && c'[offset..offset + len] == buf[..len]
      && forall j | 0 <= j < |c| && !(offset <= j < offset + len) :: c'[j] == c[j]
    ensures rs[k].Resize? ==>
      var Resize(i, size) := rs[k]; var c, c' := states[k][i], states[k + 1][i];
      && replies[k] == Sized(plain[i]) && |c'| == (if plain[i] then size as int else |c|)
      && forall j | 0 <= j < |c| && j < |c'| :: c'[j] == c[j]
  {
    hide ReadOf, WriteOf, Resized;
    assert AnsweredAt(states, plain, rs, replies, k);
    match rs[k] {
      case Read(i, offset, len, buf0) =>
        var c := states[k][i];
        ReadBelow(c, offset, len, buf0, replies[k].ret, replies[k].buf);
        if offset <= |c| { assert c[offset..offset] + buf0[0..] == buf0; }
      case Write(i, offset, len, buf) =>
        if 0 < len && offset + len < I31 {
          WriteBelow(states[k][i], states[k + 1][i], offset, len, buf, replies[k].ret);
        }
      case Resize(i, size) =>
        if replies[k].ok { ResizedMeans(states[k][i], states[k + 1][i], size); }
    }
  }

  /** The ids that a request may take. */
  lemma NeedIs(r: Request)
    ensures r.Read? ==> Need(r) == 0
    ensures r.Write? ==> Need(r) == |Nodes((r.offset + r.len + 4095) / 4096)|
    ensures r.Resize? ==> Need(r) == |Nodes((r.size + 4095) / 4096)|
  {
    hide NodeCount, Nodes;
    if !r.Read? { NodesCount(DataBlocks(Asked(r))); }
  }

  lemma AnsweredNext(states: seq<Files>, plain: seq<bool>, rs: seq<Request>, replies: seq<Reply>, c: Files, a: Reply)
    requires Answered(states, plain, rs, replies) && |replies| < |rs|
    requires var k := |replies|;
      Sound(rs[k], |states[k]|) && |states[k]| == |plain| && Answers(states[k], c, plain, rs[k], a)
    ensures Answered(states + [c], plain, rs, replies + [a])
  {
    hide Answers, Sound;
    forall k | 0 <= k < |replies| + 1
      ensures AnsweredAt(states + [c], plain, rs, replies + [a], k)
    {
      if k < |replies| {
        assert AnsweredAt(states, plain, rs, replies, k);
        assert (states + [c])[k] == states[k] && (states + [c])[k + 1] == states[k + 1];
      }
    }
  }

  /** Every file has a size it may have. */
  ghost predicate SizesPossible(c0: Files, c: Files, rs: seq<Request>, k: nat) {
    |c| == |c0| && forall i {:trigger c[i]} | 0 <= i < |c| :: PossibleSize(c0, rs, k, i, |c[i]|)
  }

  lemma SizesNext(c0: Files, c: Files, c': Files, rs: seq<Request>, k: nat)
    requires SizesPossible(c0, c, rs, k) && k < |rs| && |c'| == |c|
    requires forall i | 0 <= i < |c| && i != rs[k].file :: c'[i] == c[i]
    requires rs[k].file < |c| ==> |c'[rs[k].file]| == |c[rs[k].file]| || |c'[rs[k].file]| == Asked(rs[k])
    ensures SizesPossible(c0, c', rs, k + 1)
  {}

  lemma WriteSize(c: seq<byte>, c': seq<byte>, offset: Word, len: Word, buf: seq<byte>, ret: int)
    requires len as int <= |buf| && |c| < U32 && offset + len < U32 && WriteOf(c, c', offset, len, buf, ret)
    ensures |c'| == |c| || |c'| == offset + len
  {}

  lemma ResizedSize(c: seq<byte>, c': seq<byte>, size: nat)
    ensures Resized(c, c', size) ==> |c'| == size
  {}

  /** A request is served as arrays of bytes would serve it. */
  method ServeOne(qs: seq<Inode>, r: Request, repaired: bool, dev: BlockDevice, bm: Area, ghost c: Files,
          ghost plain: seq<bool>)
    returns (a: Reply, ghost c': Files)
    requires dev.Valid() && |qs| == |c| == |plain| && Sound(r, |qs|) && Hold(bm, dev.View(), qs, c, plain)
    requires Room(bm, dev.View(), Need(r))
    requires r.Resize? ==> MissesAll(bm, qs, StrayOf(|c[r.file]|, r.size, repaired))
    modifies dev, dev.disk, dev.cache
    ensures dev.Valid() && Answers(c, c', plain, r, a) && Hold(bm, dev.View(), qs, c', plain)
    ensures |c'| == |c| && (forall i | 0 <= i < |c| && i != r.file :: c'[i] == c[i])
    ensures |c'[r.file]| == |c[r.file]| || |c'[r.file]| == Asked(r)
    ensures Room(bm, dev.View(), 0) && |Used(bm, dev.View())| <= |Used(bm, old(dev.View()))| + Need(r)
  {
    hide BlockDevice.Valid, DataBlocks, NodeCount, Hold, HoldsAt, Used, StrayOf, ReadOf, WriteOf, Resized, MissesAll;
    ghost var b := c[r.file];
    match r {
      case Read(i, offset, len, buf) =>
        a := ServeRead(qs, i, offset, len, buf, dev, bm, c, plain);
      case Write(i, offset, len, buf) =>
        a, b := ServeWrite(qs, i, offset, len, buf, dev, bm, c, plain);
        WriteSize(c[i], b, offset, len, buf, a.ret);
      case Resize(i, size) =>
        a, b := ServeResize(qs, i, size, repaired, dev, bm, c, plain);
        ResizedSize(c[i], b, size);
    }
    c' := c[r.file := b];
    assert r.Read? ==> c' == c;
    Capacity(bm, dev.View());
  }

  /** Any run of reads, writes and resizes of any number of files is answered as arrays of
      bytes, one for each file, answer it, if there are ids for all that it asks; and the
      files hold in the end what those arrays hold. */
  method Serve(qs: seq<Inode>, rs: seq<Request>, repaired: bool, dev: BlockDevice, bm: Area, ghost c0: Files,
          ghost plain: seq<bool>)
    returns (replies: seq<Reply>, ghost states: seq<Files>)
    requires dev.Valid() && |qs| == |c0| == |plain| && Hold(bm, dev.View(), qs, c0, plain)
    requires forall r | r in rs ::
      r.file < |qs| && (!r.Resize? ==> r.len as int <= |r.buf| && r.offset + r.len < 0x1_0000_0000)
    requires bm.Fits(dev.View()) && |Used(bm, dev.View())| + Needs(rs) <= 32768 * bm.num
    requires StraysMiss(bm, qs, c0, rs, repaired)
    modifies dev, dev.disk, dev.cache
    ensures dev.Valid() && |replies| == |rs| && Answered(states, plain, rs, replies) && states[0] == c0
    ensures Hold(bm, dev.View(), qs, states[|rs|], plain)
  {
    hide BlockDevice.Valid, Hold, Used, Area.Fits, Need, Answers, Answered, Asked, StrayOf, MissesAll;
    ghost var s := dev.View();
    replies, states := [], [c0];
    AnsweredNone(c0, plain, rs);
    var k := 0;
    while k < |rs|
      invariant 0 <= k <= |rs| == |replies| + (|rs| - k) && |states| == k + 1 && states[0] == c0
      invariant dev.Valid() && Hold(bm, dev.View(), qs, states[k], plain) && Answered(states, plain, rs, replies)
      invariant SizesPossible(c0, states[k], rs, k)
      invariant bm.Fits(dev.View()) && bm.Fits(s) && |Used(bm, dev.View())| <= |Used(bm, s)| + Needs(rs[..k])
    {
      assert rs[k] in rs && Sound(rs[k], |qs|);
      NeedsNext(rs, k);
      NeedsPart(rs, k + 1);
      if rs[k].Resize? { assert PossibleSize(c0, rs, k, rs[k].file, |states[k][rs[k].file]|); }
      ghost var c := states[k];
      var a, c' := ServeOne(qs, rs[k], repaired, dev, bm, c, plain);
      SizesNext(c0, c, c', rs, k);
      AnsweredNext(states, plain, rs, replies, c', a);
      replies, states := replies + [a], states + [c'];
      k := k + 1;
    }
  }

  lemma AnsweredNone(c: Files, plain: seq<bool>, rs: seq<Request>)
    ensures Answered([c], plain, rs, [])
  {}
}
