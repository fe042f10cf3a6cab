/** Accounting for a tree that grows one block at a time out of the bitmap. */
module Growth {
  import opened Blocks
  import opened BitmapModel
  import opened Tree

  /** The data area of the bitmap lies on the device, after the bitmap. */
  ghost predicate Laid(bm: Area, s: seq<Block>) {
    && bm.Fits(s)
    && bm.start + bm.num <= bm.offset
    && bm.Limit() <= |s|
  }

  /** m extends m0, and the ids in use are those used at first and those of m. */
  ghost predicate Grown(m0: map<Node, int>, m: map<Node, int>, u0: set<int>, u: set<int>) {
    && ClosedPart(m0, m)
    && m0.Values <= u0
    && u == u0 + m.Values
    && (forall x | x in m && x !in m0 :: m[x] !in u0)
  }

  /** Outside the bitmap and the index blocks of the tree nothing has changed. */
  ghost predicate OnlyIndex(bm: Area, m: map<Node, int>, s0: seq<Block>, s: seq<Block>) {
    |s| == |s0| &&
    forall b | 0 <= b < |s| && !bm.IsBitmapBlock(b) && !IsIndex(m, b) :: s[b] == s0[b]
  }

  ghost predicate IsIndex(m: map<Node, int>, b: int) {
    exists x :: x in m && !x.Data? && m[x] == b
  }

  lemma GrownStep(m0: map<Node, int>, m: map<Node, int>, u0: set<int>, u: set<int>, x: Node, id: int)
    requires Grown(m0, m, u0, u) && x !in m && id !in u
    ensures id !in m.Values && Grown(m0, m[x := id], u0, u + {id})
  {
    assert m[x := id].Values == m.Values + {id} by {
      assert x in m[x := id];
      forall v | v in m.Values + {id}
        ensures v in m[x := id].Values
      {
        if v in m.Values { var y :| y in m && m[y] == v; assert m[x := id][y] == v; }
      }
    }
  }

  lemma OnlyIndexStep(bm: Area, m: map<Node, int>, x: Node, id: int, s0: seq<Block>, s: seq<Block>)
    requires OnlyIndex(bm, m, s0, s) && x !in m
    ensures OnlyIndex(bm, m[x := id], s0, s)
  {}

  /** The state of a tree that has grown from m0 to m: u0 were the ids in use at
      first (the old tree's among them) and s0 the device contents. */
  ghost predicate Growing(bm: Area, t: Root, s: seq<Block>, m: map<Node, int>, m0: map<Node, int>, u0: set<int>,
          s0: seq<Block>)
  {
    && Laid(bm, s)
    && Rep(t, s, m, bm.offset, bm.Limit())
    && Grown(m0, m, u0, Used(bm, s))
    && OnlyIndex(bm, m, s0, s)
  }

  lemma GrowingFacts(bm: Area, t: Root, s: seq<Block>, m: map<Node, int>, m0: map<Node, int>, u0: set<int>,
          s0: seq<Block>)
    requires Growing(bm, t, s, m, m0, u0, s0)
    ensures Laid(bm, s) && bm.Fits(s) && |t.direct| == DIRECT && |s| == |s0|
    ensures forall x | x in m :: bm.Manages(m[x]) && 0 <= m[x] < |s| && !bm.IsBitmapBlock(m[x])
    ensures Injective(m) && forall id | bm.Manages(id) :: id > 0
    ensures Ind1 in m ==> m[Ind1] == t.indirect1
    ensures Ind2 in m ==> m[Ind2] == t.indirect2
    ensures forall b: nat | Second(b) in m :: Ind2 in m && b < WORDS && GetWord(s[t.indirect2], b) == m[Second(b)]
  {}

  /** A new entry in the buffer of an index block q. */
  lemma GrowBuffer(bm: Area, t: Root, s: seq<Block>, q: Node, p: Block, m: map<Node, int>, m0: map<Node, int>,
          u0: set<int>, s0: seq<Block>, x: Node, id: Word)
    requires q in m && 0 <= m[q] < |s| && Growing(bm, t, s[m[q] := p], m, m0, u0, s0) && Laid(bm, s)
    requires bm.Manages(id) && id !in Used(bm, s) && x !in m && !IsRoot(x) && Parent(x) == q && EntryIndex(x) < WORDS
    ensures Laid(bm, Marked(bm, s, id)) && bm.Fits(Marked(bm, s, id)) && |Marked(bm, s, id)| == |s|
    ensures Growing(bm, t, Marked(bm, s, id)[m[q] := SetWord(p, EntryIndex(x), id)], m[x := id], m0, u0, s0)
  {
    hide Used, Rep, Grown, OnlyIndex, SetWord, SetSlot;
    var b, v := m[q], s[m[q] := p];
    GrowingFacts(bm, t, v, m, m0, u0, s0);
    MarkedCommutes(bm, s, id, b, p);
    GrowChild(bm, t, v, m, m0, u0, s0, x, id);
    assert Marked(bm, v, id)[b := SetWord(p, EntryIndex(x), id)] ==
      Marked(bm, s, id)[b := SetWord(p, EntryIndex(x), id)];
  }

  /** Where the second-level index block of data block i is. */
  lemma SecondFacts(bm: Area, t: Root, s: seq<Block>, m: map<Node, int>, m0: map<Node, int>, u0: set<int>,
          s0: seq<Block>, i: nat)
    requires Growing(bm, t, s, m, m0, u0, s0) && SINGLE <= i < MAX_BLOCKS && Parent(Data(i)) in m
    ensures t.indirect2 as int < |s|
    ensures var b := GetWord(s[t.indirect2], (i - SINGLE) / WORDS);
      b == m[Parent(Data(i))] && b as int < |s| && b != t.indirect2 && bm.Manages(b)
  {
    hide Used, Rep, Grown, OnlyIndex, GetWord, Growing;
    GrowingFacts(bm, t, s, m, m0, u0, s0);
    assert m[Parent(Data(i))] != m[Ind2];
  }

  /** A new data block under a second-level index block; indirect2 is untouched. */
  lemma GrowUnder(bm: Area, t: Root, s: seq<Block>, m: map<Node, int>, m0: map<Node, int>, u0: set<int>, s0: seq<Block>,
          i: nat, id: Word)
    requires Growing(bm, t, s, m, m0, u0, s0) && SINGLE <= i < MAX_BLOCKS && Parent(Data(i)) in m && Data(i) !in m
    requires bm.Manages(id) && id !in Used(bm, s) && Laid(bm, s)
    ensures var b, s' := m[Parent(Data(i))], Marked(bm, s, id);
      && 0 <= b < |s| == |s'| && s'[b] == s[b] && t.indirect2 as int < |s|
      && Growing(bm, t, s'[b := SetWord(s[b], (i - SINGLE) % WORDS, id)], m[Data(i) := id], m0, u0, s0)
      && s'[b := SetWord(s[b], (i - SINGLE) % WORDS, id)][t.indirect2] == s[t.indirect2]
  {
    hide Used, Rep, Grown, OnlyIndex, GetWord, SetWord, Growing, Marked;
    SecondFacts(bm, t, s, m, m0, u0, s0, i);
    GrowingFacts(bm, t, s, m, m0, u0, s0);
    GrowChild(bm, t, s, m, m0, u0, s0, Data(i), id);
    MarkedUsed(bm, s, id);
  }

  /** A block of the data area may be replaced by a buffer before or after an
      allocation. */
  lemma MarkedCommutes(bm: Area, s: seq<Block>, id: int, b: int, p: Block)
    requires Laid(bm, s) && bm.Manages(id) && bm.Manages(b)
    ensures Laid(bm, s[b := p]) && Marked(bm, s[b := p], id) == Marked(bm, s, id)[b := p]
    ensures Used(bm, s[b := p]) == Used(bm, s)
  {
    hide SetSlot;
    SameBitmap(bm, s, s[b := p]);
  }

  /** An allocation alone leaves the tree as it is and gives an id it does not have. */
  lemma GrowAlloc(bm: Area, t: Root, s: seq<Block>, m: map<Node, int>, m0: map<Node, int>, u0: set<int>, s0: seq<Block>,
          x: Node, id: int)
    requires Growing(bm, t, s, m, m0, u0, s0) && bm.Manages(id) && id !in Used(bm, s) && x !in m
    ensures Rep(t, Marked(bm, s, id), m, bm.offset, bm.Limit()) && Laid(bm, Marked(bm, s, id))
    ensures id !in m.Values && Grown(m0, m[x := id], u0, Used(bm, Marked(bm, s, id)))
    ensures OnlyIndex(bm, m[x := id], s0, Marked(bm, s, id))
    ensures SameOutside(bm, s, Marked(bm, s, id))
  {
    hide Used, Grown, Marked, Points;
    MarkedUsed(bm, s, id);
    RepFrame(t, s, Marked(bm, s, id), m, bm.offset, bm.Limit());
    GrownStep(m0, m, u0, Used(bm, s), x, id);
    OnlyIndexStep(bm, m, x, id, s0, Marked(bm, s, id));
  }

  /** A new block whose pointer is kept in the inode. */
  lemma GrowRoot(bm: Area, t: Root, t': Root, s: seq<Block>, m: map<Node, int>, m0: map<Node, int>, u0: set<int>,
          s0: seq<Block>, x: Node, id: Word)
    requires Growing(bm, t, s, m, m0, u0, s0) && bm.Manages(id) && id !in Used(bm, s) && x !in m && IsRoot(x)
    requires |t.direct| == DIRECT
    requires t' == match x
      case Data(i) => t.(direct := t.direct[i := id])
      case Ind1 => t.(indirect1 := id)
      case Ind2 => t.(indirect2 := id)
    ensures Growing(bm, t', Marked(bm, s, id), m[x := id], m0, u0, s0)
  {
    hide Used, Grown, Marked, OnlyIndex, Rep;
    GrowAlloc(bm, t, s, m, m0, u0, s0, x, id);
    RepRoot(t, t', Marked(bm, s, id), m, bm.offset, bm.Limit(), x, id);
  }

  /** A new block whose pointer is kept in an index block of the tree. */
  lemma GrowChild(bm: Area, t: Root, s: seq<Block>, m: map<Node, int>, m0: map<Node, int>, u0: set<int>, s0: seq<Block>,
          x: Node, id: Word)
    requires Growing(bm, t, s, m, m0, u0, s0) && bm.Manages(id) && id !in Used(bm, s) && x !in m && !IsRoot(x)
    requires Parent(x) in m && 0 <= m[Parent(x)] < |s| && EntryIndex(x) < WORDS
    ensures var b := m[Parent(x)];
      Growing(bm, t, Marked(bm, s, id)[b := SetWord(s[b], EntryIndex(x), id)], m[x := id], m0, u0, s0)
  {
    hide Used, Grown, Marked, Points, SetWord;
    var b, s' := m[Parent(x)], Marked(bm, s, id);
    GrowAlloc(bm, t, s, m, m0, u0, s0, x, id);
    assert bm.Manages(b);
    assert s'[b] == s[b];
    RepChild(t, s', m, bm.offset, bm.Limit(), x, id);
    SameBitmap(bm, s', s'[b := SetWord(s[b], EntryIndex(x), id)]);
    assert m[x := id][Parent(x)] == b;
    assert IsIndex(m[x := id], b);
  }

  /** The tree m has exactly the positions of a stage of growth. */
  ghost predicate At(m: map<Node, int>, d: nat, i1: bool, i2: bool, sec: nat) {
    forall x :: x in m <==> Stage(x, d, i1, i2, sec)
  }

  lemma HasInd2(m: map<Node, int>, d: nat, sec: nat)
    requires At(m, d, true, true, sec)
    ensures Ind2 in m
  {}

  /** Growth stopped: every id is in use, and the tree lacks a position. */
  ghost predicate Stuck(bm: Area, s: seq<Block>, m: map<Node, int>, m0: map<Node, int>, u0: set<int>, n: nat)
    requires bm.Fits(s)
  {
    && m.Keys < Nodes(n)
    && Injective(m)
    && Grown(m0, m, u0, Used(bm, s))
    && forall id | bm.Manages(id) :: id in Used(bm, s)
  }

  /** What is left when an allocation fails half way: the old tree is in place, all
      ids are in use, and only the bitmap and index blocks were written. */
  ghost predicate Failed(bm: Area, t: Root, s: seq<Block>, m: map<Node, int>, m0: map<Node, int>, u0: set<int>,
          s0: seq<Block>, n: nat)
  {
    && Laid(bm, s)
    && Stuck(bm, s, m, m0, u0, n)
    && Rep(t, s, m0, bm.offset, bm.Limit())
    && OnlyIndex(bm, m, s0, s)
  }

  lemma OldPart(bm: Area, t: Root, s: seq<Block>, m: map<Node, int>, m0: map<Node, int>, u0: set<int>, s0: seq<Block>)
    requires Growing(bm, t, s, m, m0, u0, s0)
    ensures Rep(t, s, m0, bm.offset, bm.Limit())
  {}

  lemma OldKept(bm: Area, t: Root, s: seq<Block>, s': seq<Block>, m0: map<Node, int>)
    requires Laid(bm, s) && Rep(t, s, m0, bm.offset, bm.Limit()) && SameOutside(bm, s, s')
    ensures Rep(t, s', m0, bm.offset, bm.Limit())
  {}

  /** A root pointer the tree does not have may hold anything. */
  lemma RootUnused(bm: Area, t: Root, t': Root, s: seq<Block>, m: map<Node, int>, m0: map<Node, int>, u0: set<int>,
          s0: seq<Block>)
    requires Growing(bm, t, s, m, m0, u0, s0) && t'.direct == t.direct
    requires t'.indirect1 == t.indirect1 || Ind1 !in m
    requires t'.indirect2 == t.indirect2 || Ind2 !in m
    ensures Rep(t', s, m0, bm.offset, bm.Limit())
  {
    OldPart(bm, t, s, m, m0, u0, s0);
    forall x | x in m0
      ensures Points(t', s, m0, x)
    {
      assert Points(t, s, m0, x);
    }
  }

  /** A buffer of an index block that was not written back does not count. */
  lemma OnlyIndexBuffer(bm: Area, m: map<Node, int>, s0: seq<Block>, s: seq<Block>, x: Node, p: Block)
    requires x in m && !x.Data? && 0 <= m[x] < |s| && OnlyIndex(bm, m, s0, s[m[x] := p])
    ensures OnlyIndex(bm, m, s0, s)
  {}

  lemma SecondsMono(a: nat, b: nat)
    requires a <= b
    ensures Seconds(a) <= Seconds(b)
    ensures a <= SINGLE ==> Seconds(a) == 0
  {}

  lemma FailedAt(bm: Area, t: Root, t': Root, s: seq<Block>, m: map<Node, int>, m0: map<Node, int>, u0: set<int>,
          s0: seq<Block>, n: nat, d: nat, i1: bool, i2: bool, sec: nat, x: Node)
    requires Growing(bm, t, s, m, m0, u0, s0) && bm.Fits(s) && (forall id | bm.Manages(id) :: id in Used(bm, s))
    requires Rep(t', s, m0, bm.offset, bm.Limit())
    requires At(m, d, i1, i2, sec) && d <= n && (i1 ==> n > DIRECT) && (i2 ==> n > SINGLE) && sec <= Seconds(n)
    requires x !in m && InTree(x, n)
    ensures Failed(bm, t', s, m, m0, u0, s0, n)
  {}

  lemma FailedBuffer(bm: Area, t: Root, s: seq<Block>, q: Node, p: Block, m: map<Node, int>, m0: map<Node, int>,
          u0: set<int>, s0: seq<Block>, n: nat, d: nat, i1: bool, i2: bool, sec: nat, x: Node)
    requires q in m && !q.Data? && 0 <= m[q] < |s| && Growing(bm, t, s[m[q] := p], m, m0, u0, s0)
    requires Laid(bm, s) && (forall id | bm.Manages(id) :: id in Used(bm, s))
    requires Rep(t, s, m0, bm.offset, bm.Limit())
    requires At(m, d, i1, i2, sec) && d <= n && (i1 ==> n > DIRECT) && (i2 ==> n > SINGLE) && sec <= Seconds(n)
    requires x !in m && InTree(x, n)
    ensures Failed(bm, t, s, m, m0, u0, s0, n)
  {
    hide Used, Points;
    var v := s[m[q] := p];
    assert !bm.IsBitmapBlock(m[q]);
    SameBitmap(bm, s, v);
    OldPart(bm, t, v, m, m0, u0, s0);
    FailedAt(bm, t, t, v, m, m0, u0, s0, n, d, i1, i2, sec, x);
    OnlyIndexBuffer(bm, m, s0, s, q, p);
  }

  lemma NewIds(m0: map<Node, int>, m: map<Node, int>, u0: set<int>, u: set<int>)
    requires Grown(m0, m, u0, u)
    ensures m0.Values <= m.Values && (m.Values - m0.Values) !! u0 && u == u0 + (m.Values - m0.Values)
  {}

  /** Each new position takes one id. */
  lemma GrownCount(m0: map<Node, int>, m: map<Node, int>, u0: set<int>, u: set<int>)
    requires Grown(m0, m, u0, u) && Injective(m)
    ensures |u| == |u0| + |m| - |m0|
  {
    NewIds(m0, m, u0, u);
    assert Injective(m0);
    hide Grown, Injective;
    ValuesCount(m);
    ValuesCount(m0);
    SetSizes(u0, m0.Values, m.Values);
  }

  lemma SetSizes(u0: set<int>, a: set<int>, b: set<int>)
    requires a <= b && (b - a) !! u0
    ensures |u0 + (b - a)| == |u0| + |b| - |a|
  {}

  lemma {:induction false} ValuesCount(m: map<Node, int>)
    requires Injective(m)
    ensures |m.Values| == |m|
    decreases m.Keys
  {
    if m.Keys == {} {
      assert m.Values == {};
    } else {
      var x :| x in m.Keys;
      var r := m - {x};
      ValuesCount(r);
      assert m.Values == r.Values + {m[x]} by {
        forall v | v in m.Values ensures v in r.Values + {m[x]} {
          var y :| y in m && m[y] == v;
          if y != x { assert r[y] == v; }
        }
      }
      assert m[x] !in r.Values;
      assert m.Keys == r.Keys + {x};
    }
  }

  /** The number of blocks, index blocks included, of a file of n data blocks. */
  ghost function NodeCount(n: nat): nat {
    n + (if n > DIRECT then 1 else 0) + (if n > SINGLE then 1 else 0) + Seconds(n)
  }

  lemma {:induction false} DataCount(n: nat)
    ensures |set i | 0 <= i < n :: Data(i)| == n
  {
    if n > 0 {
      DataCount(n - 1);
      assert (set i | 0 <= i < n :: Data(i)) == (set i | 0 <= i < n - 1 :: Data(i)) + {Data(n - 1)};
    }
  }

  lemma {:induction false} SecondCount(n: nat)
    ensures |set b | 0 <= b < n :: Second(b)| == n
  {
    if n > 0 {
      SecondCount(n - 1);
      assert (set b | 0 <= b < n :: Second(b)) == (set b | 0 <= b < n - 1 :: Second(b)) + {Second(n - 1)};
    }
  }

  /** What a file of n data blocks consists of, and how much that is: indirect1 from 24
      data blocks on, indirect2 and the index blocks under it from 1048 on. */
  lemma NodesAre(n: nat)
    ensures forall i: nat :: Data(i) in Nodes(n) <==> i < n
    ensures (Ind1 in Nodes(n) <==> n > 23) && (Ind2 in Nodes(n) <==> n > 1047)
    ensures forall b: nat :: Second(b) in Nodes(n) <==> 1047 + 1024 * b < n
    ensures |Nodes(n)| == n + (if n > 23 then 1 else 0) + if n > 1047 then 1 + (n - 24) / 1024 else 0
  {
    hide Nodes;
    NodesCount(n);
  }

  lemma NodesCount(n: nat)
    ensures |Nodes(n)| == NodeCount(n)
  {
    hide Seconds;
    DataCount(n);
    SecondCount(Seconds(n));
    var d, e := set i | 0 <= i < n :: Data(i), set b | 0 <= b < Seconds(n) :: Second(b);
    var f := if n > DIRECT then {Ind1} else {};
    var g := if n > SINGLE then {Ind2} else {};
    assert Nodes(n) == d + e + f + g;
    assert |d + e| == |d| + |e|;
    assert |d + e + f| == |d + e| + |f|;
    assert |d + e + f + g| == |d + e + f| + |g|;
  }

  /** The bitmap can record num * BLOCK_BITS ids, and has as many when all are in use. */
  lemma Capacity(bm: Area, s: seq<Block>)
    requires bm.Fits(s)
    ensures |Used(bm, s)| <= bm.num * BLOCK_BITS
    ensures (forall id | bm.Manages(id) :: id in Used(bm, s)) ==> |Used(bm, s)| == bm.num * BLOCK_BITS
  {
    hide SlotUsed;
    var all := Range(bm.offset, bm.Limit());
    assert Used(bm, s) <= all;
    SubsetSize(Used(bm, s), all);
    if forall id | bm.Manages(id) :: id in Used(bm, s) {
      assert Used(bm, s) == all;
    }
  }

  ghost function Range(lo: int, hi: int): (r: set<int>)
    requires lo <= hi
    ensures |r| == hi - lo && forall id :: id in r <==> lo <= id < hi
    decreases hi - lo
  {
    if lo == hi then {} else Range(lo, hi - 1) + {hi - 1}
  }

  lemma {:induction false} SubsetSize<T>(a: set<T>, b: set<T>)
    requires a <= b
    ensures |a| <= |b| && (a < b ==> |a| < |b|)
  {
    assert b == a + (b - a);
    assert |b| == |a| + |b - a|;
    if a < b {
      var x :| x in b && x !in a;
      assert x in b - a;
    }
  }

  /** A file of n data blocks in good order: its tree is well formed, all its blocks
      are in use, and the root pointers say which index blocks there are. */
  ghost predicate FileOk(bm: Area, t: Root, s: seq<Block>, n: nat) {
    && Laid(bm, s)
    && WellFormed(t, s, n, bm.offset, bm.Limit())
    && TreeOf(t, s, n).Values <= Used(bm, s)
    && (t.indirect1 != 0 <==> n > DIRECT)
    && (t.indirect2 != 0 <==> n > SINGLE)
  }

  /** Growth from tree m0 on device s0 to tree m1 on device s: every old position
      keeps its block, the new positions have blocks that were free, exactly those
      are now in use as well, and outside the bitmap and the index blocks of the
      file nothing has changed. */
  ghost predicate GrownExactly(bm: Area, m0: map<Node, int>, m1: map<Node, int>, s0: seq<Block>, s: seq<Block>)
    requires bm.Fits(s0) && bm.Fits(s)
  {
    && ClosedPart(m0, m1)
    && Used(bm, s) == Used(bm, s0) + (m1.Values - m0.Values)
    && (m1.Values - m0.Values) !! Used(bm, s0)
    && OnlyIndex(bm, m1, s0, s)
  }

  lemma FileStart(bm: Area, t: Root, s: seq<Block>, n: nat)
    requires FileOk(bm, t, s, n)
    ensures var m := TreeOf(t, s, n);
      && bm.Fits(s) && Growing(bm, t, s, m, m, Used(bm, s), s)
      && At(m, n, n > DIRECT, n > SINGLE, Seconds(n)) && m.Keys == Nodes(n)
  {}

  lemma GrowthDone(bm: Area, t: Root, s: seq<Block>, m: map<Node, int>, m0: map<Node, int>, s0: seq<Block>, n0: nat,
          n: nat)
    requires bm.Fits(s0) && Growing(bm, t, s, m, m0, Used(bm, s0), s0)
    requires At(m, n, n > DIRECT, n > SINGLE, Seconds(n)) && n <= MAX_BLOCKS && m0.Keys == Nodes(n0)
    requires (t.indirect1 != 0 <==> n > DIRECT) && (t.indirect2 != 0 <==> n > SINGLE)
    ensures FileOk(bm, t, s, n) && TreeOf(t, s, n) == m && bm.Fits(s) && GrownExactly(bm, m0, m, s0, s)
    ensures |Used(bm, s0)| + NodeCount(n) - NodeCount(n0) <= bm.num * BLOCK_BITS
  {
    hide Used, Seconds, Points, OnlyIndex, Nodes, Injective, Within, TreeOf, ClosedPart, NodeCount, Area.Fits;
    RepTree(t, s, m, n, bm.offset, bm.Limit());
    NewIds(m0, m, Used(bm, s0), Used(bm, s));
    assert m.Keys == Nodes(n) by { AllKeys(m, n); }
    GrowthSize(bm, m, m0, Used(bm, s0), s, n0, n);
    Capacity(bm, s);
  }

  lemma AllKeys(m: map<Node, int>, n: nat)
    requires At(m, n, n > DIRECT, n > SINGLE, Seconds(n))
    ensures m.Keys == Nodes(n)
  {}

  lemma GrowthSize(bm: Area, m: map<Node, int>, m0: map<Node, int>, u0: set<int>, s: seq<Block>, n0: nat, n: nat)
    requires bm.Fits(s) && Grown(m0, m, u0, Used(bm, s)) && Injective(m)
    requires m0.Keys == Nodes(n0) && m.Keys <= Nodes(n)
    ensures |Used(bm, s)| <= |u0| + NodeCount(n) - NodeCount(n0)
    ensures m.Keys == Nodes(n) ==> |Used(bm, s)| == |u0| + NodeCount(n) - NodeCount(n0)
    ensures m.Keys < Nodes(n) ==> |Used(bm, s)| < |u0| + NodeCount(n) - NodeCount(n0)
  {
    hide Used, Grown, Injective, NodeCount, Nodes, Area.Fits;
    GrownCount(m0, m, u0, Used(bm, s));
    NodesCount(n);
    NodesCount(n0);
    SubsetSize(m.Keys, Nodes(n));
    assert |m| == |m.Keys| && |m0| == |m0.Keys|;
  }

  lemma GrowthStopped(bm: Area, t: Root, s: seq<Block>, m: map<Node, int>, m0: map<Node, int>, s0: seq<Block>, n0: nat,
          n: nat)
    requires bm.Fits(s0) && Failed(bm, t, s, m, m0, Used(bm, s0), s0, n) && m0.Keys == Nodes(n0)
    ensures bm.Fits(s) && |Used(bm, s0)| + NodeCount(n) - NodeCount(n0) > bm.num * BLOCK_BITS
  {
    hide Used, Points, OnlyIndex, Nodes, Injective, Grown, NodeCount, Area.Fits;
    GrowthSize(bm, m, m0, Used(bm, s0), s, n0, n);
    Capacity(bm, s);
  }

  /** A file is not affected by writes outside the bitmap and its own index blocks. */
  lemma FileFrame(bm: Area, t: Root, s: seq<Block>, s': seq<Block>, n: nat)
    requires FileOk(bm, t, s, n) && |s'| == |s|
    requires forall b | bm.IsBitmapBlock(b) && 0 <= b < |s| :: s'[b] == s[b]
    requires forall x | x in TreeOf(t, s, n) && !x.Data? ::
      0 <= TreeOf(t, s, n)[x] < |s| && s'[TreeOf(t, s, n)[x]] == s[TreeOf(t, s, n)[x]]
    ensures FileOk(bm, t, s', n) && TreeOf(t, s', n) == TreeOf(t, s, n) && bm.Fits(s) && bm.Fits(s')
    ensures Used(bm, s') == Used(bm, s)
  {
    hide Used, Points, Id;
    SameBitmap(bm, s, s');
    var m := TreeOf(t, s, n);
    RepFrame(t, s, s', m, bm.offset, bm.Limit());
    RepTree(t, s', m, n, bm.offset, bm.Limit());
  }

  lemma FileFacts(bm: Area, t: Root, s: seq<Block>, n: nat)
    requires FileOk(bm, t, s, n)
    ensures bm.Fits(s) && |t.direct| == DIRECT && bm.start + bm.num <= bm.offset && bm.Limit() <= |s| && n <= MAX_BLOCKS
    ensures var m := TreeOf(t, s, n);
      Injective(m) && m.Values <= Used(bm, s) && (forall x :: x in m <==> InTree(x, n)) &&
        (forall x | x in m :: bm.Manages(m[x]) && 0 <= m[x] < |s| && !bm.IsBitmapBlock(m[x]))
  {}

  /** In particular not by a write below the bitmap. */
  lemma FileElsewhere(bm: Area, t: Root, s: seq<Block>, n: nat, b: nat, p: Block)
    requires FileOk(bm, t, s, n) && b < bm.start
    ensures b < |s| && FileOk(bm, t, s[b := p], n) && TreeOf(t, s[b := p], n) == TreeOf(t, s, n)
    ensures bm.Fits(s) && bm.Fits(s[b := p]) && Used(bm, s[b := p]) == Used(bm, s)
  {
    hide FileOk, TreeOf, Used;
    FileFacts(bm, t, s, n);
    FileFrame(bm, t, s, s[b := p], n);
  }

  /** The walk to data block i of a file meets only valid block ids. */
  lemma WalkFacts(bm: Area, t: Root, s: seq<Block>, n: nat, i: nat)
    requires FileOk(bm, t, s, n) && i < n
    ensures |t.direct| == DIRECT && n <= MAX_BLOCKS
    ensures Data(i) in TreeOf(t, s, n) && TreeOf(t, s, n)[Data(i)] == Id(t, s, Data(i)) && 0 <= Id(t, s, Data(i)) < |s|
    ensures DIRECT <= i < SINGLE ==> t.indirect1 as int < |s|
    ensures SINGLE <= i ==>
      && t.indirect2 as int < |s| && (i - SINGLE) / WORDS < WORDS
      && GetWord(s[t.indirect2], (i - SINGLE) / WORDS) as int < |s|
  {
    hide GetWord, Used;
    FileFacts(bm, t, s, n);
    var m := TreeOf(t, s, n);
    assert Data(i) in m && Points(t, s, m, Data(i));
    if i >= DIRECT {
      var p := Parent(Data(i));
      assert Points(t, s, m, p);
      if i >= SINGLE { assert Points(t, s, m, Ind2); }
    }
  }

  /** The index blocks that the root pointers give. */
  lemma IndexRoots(bm: Area, t: Root, s: seq<Block>, n: nat)
    requires FileOk(bm, t, s, n)
    ensures var m := TreeOf(t, s, n);
      && (Ind1 in m <==> t.indirect1 != 0) && (Ind2 in m <==> t.indirect2 != 0)
      && (Ind1 in m ==> m[Ind1] == t.indirect1 && t.indirect1 as int < |s|)
      && (Ind2 in m ==> m[Ind2] == t.indirect2 && t.indirect2 as int < |s|)
      && forall b: nat | Second(b) in m :: Ind2 in m
  {
    hide Used;
    FileFacts(bm, t, s, n);
  }

  lemma SecondsOf(bm: Area, t: Root, s: seq<Block>, n: nat)
    requires FileOk(bm, t, s, n) && t.indirect2 != 0
    ensures n > SINGLE && Seconds(n) <= WORDS && t.indirect2 as int < |s|
    ensures var m := TreeOf(t, s, n);
      && Ind2 in m && m[Ind2] == t.indirect2
      && (forall b: nat | Second(b) in m :: b < Seconds(n))
      && forall b: nat | b < Seconds(n) ::
           Second(b) in m && GetWord(s[t.indirect2], b) == m[Second(b)] && 0 <= m[Second(b)] < |s|
  {
    hide Used, GetWord, Id;
    FileFacts(bm, t, s, n);
    IndexRoots(bm, t, s, n);
    var m := TreeOf(t, s, n);
    forall b: nat | b < Seconds(n)
      ensures Second(b) in m && GetWord(s[t.indirect2], b) == m[Second(b)] && 0 <= m[Second(b)] < |s|
    {
      assert Second(b) in m && Points(t, s, m, Second(b));
    }
  }
}
