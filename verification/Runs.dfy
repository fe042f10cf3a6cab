/** Whole runs of requests against the device. */
module Runs {
  import opened Blocks
  import opened CacheModel
  import opened Device
  import opened Wrappers

  datatype Request = Get(id: nat) | Put(id: nat, b: Block) | Flush(id: nat) | FlushAll

  ghost predicate Addresses(r: Request, n: nat) {
    r.FlushAll? || r.id < n
  }

  /** A flat array of blocks serving the same requests. */
  ghost function FlatView(view: seq<Block>, rs: seq<Request>): seq<Block>
    requires forall r | r in rs :: Addresses(r, |view|)
  {
    if rs == [] then view
    else
      var r := rs[|rs| - 1];
      assert r in rs;
      var before := FlatView(view, rs[..|rs| - 1]);
      if r.Put? && r.id < |before| then before[r.id := r.b] else before
  }

  /** What each read of the run returns on the flat array; other requests return None. */
  ghost function FlatReplies(view: seq<Block>, rs: seq<Request>): seq<Option<Block>>
    requires forall r | r in rs :: Addresses(r, |view|)
  {
    if rs == [] then []
    else
      var r := rs[|rs| - 1];
      assert r in rs;
      var before := FlatView(view, rs[..|rs| - 1]);
      FlatReplies(view, rs[..|rs| - 1]) + [if r.Get? && r.id < |before| then Some(before[r.id]) else None]
  }

  /** The flat array in terms of the run alone: a read returns what the last write to its
      block before it wrote, or what was there at first; and so it is in the end. */
  lemma {:induction false} FlatLast(view: seq<Block>, rs: seq<Request>, id: nat)
    requires (forall r | r in rs :: Addresses(r, |view|)) && id < |view|
    ensures |FlatView(view, rs)| == |view|
    ensures (forall j | 0 <= j < |rs| :: !(rs[j].Put? && rs[j].id == id)) ==> FlatView(view, rs)[id] == view[id]
    ensures forall k | 0 <= k < |rs| && rs[k].Put? && rs[k].id == id
      && (forall j | k < j < |rs| :: !(rs[j].Put? && rs[j].id == id)) :: FlatView(view, rs)[id] == rs[k].b
  {
    if rs != [] {
      var n := |rs| - 1;
      assert rs[n] in rs && forall r | r in rs[..n] :: r in rs;
      FlatLast(view, rs[..n], id);
      assert forall j | 0 <= j < n :: rs[..n][j] == rs[j];
    }
  }

  lemma {:induction false} FlatReply(view: seq<Block>, rs: seq<Request>, i: nat)
    requires (forall r | r in rs :: Addresses(r, |view|)) && i < |rs|
    ensures |FlatReplies(view, rs)| == |rs| && (forall r | r in rs[..i] :: Addresses(r, |view|))
    ensures !rs[i].Get? ==> FlatReplies(view, rs)[i] == None
    ensures rs[i].Get? ==>
      && rs[i].id < |view| == |FlatView(view, rs[..i])|
      && FlatReplies(view, rs)[i] == Some(FlatView(view, rs[..i])[rs[i].id])
    decreases |rs|
  {
    var n := |rs| - 1;
    assert rs[i] in rs && forall r | r in rs[..n] :: r in rs;
    if i < n {
      FlatReply(view, rs[..n], i);
      assert rs[..n][..i] == rs[..i];
    } else {
      if rs[n].Get? { FlatLast(view, rs[..n], rs[n].id); }
      if n > 0 { FlatReply(view, rs[..n], n - 1); }
    }
  }

  /** The cached device serves every run as the flat array does, whatever is loaded,
      evicted or written back on the way and in either order of eviction. */
  method Serve(dev: BlockDevice, rs: seq<Request>) returns (replies: seq<Option<Block>>)
    requires dev.Valid() && forall r | r in rs :: r.FlushAll? || r.id < |dev.View()|
    modifies dev, dev.disk, dev.cache
    ensures dev.Valid() && dev.View() == FlatView(old(dev.View()), rs)
    ensures replies == FlatReplies(old(dev.View()), rs)
  {
    hide BlockDevice.Valid, Towards;
    ghost var view := dev.View();
    assert forall r | r in rs :: Addresses(r, |view|);
    replies := [];
    var i := 0;
    while i < |rs|
      invariant 0 <= i <= |rs| && dev.Valid() && |dev.View()| == |view|
      invariant forall r | r in rs[..i] :: Addresses(r, |view|)
      invariant dev.View() == FlatView(view, rs[..i])
      invariant replies == FlatReplies(view, rs[..i])
    {
      assert rs[i] in rs;
      assert rs[..i + 1][..i] == rs[..i] && rs[..i + 1][i] == rs[i];
      match rs[i] {
        case Get(id) =>
          var b := dev.Read(id);
          replies := replies + [Some(b)];
        case Put(id, b) =>
          dev.Write(id, b);
          replies := replies + [None];
        case Flush(id) =>
          var ok := dev.Sync(id);
          replies := replies + [None];
        case FlushAll =>
          dev.SyncAll();
          replies := replies + [None];
      }
      i := i + 1;
    }
    assert rs[..i] == rs;
  }
}
