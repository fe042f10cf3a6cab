/** Accounting for a tree that loses positions: which ids are collected for freeing,
    and what stays in place. */
module Shrinkage {
  import opened Blocks
  import opened BitmapModel
  import opened Tree
  import opened Growth

  /** The positions of m that a file of n data blocks keeps. */
  ghost function Cut(m: map<Node, int>, n: nat): map<Node, int> {
    map x | x in m && InTree(x, n) :: m[x]
  }

  /** The list holds exactly the ids of d, each once. */
  ghost predicate Lists(ids: seq<int>, d: map<Node, int>) {
    && (forall i, j | 0 <= i < j < |ids| :: ids[i] != ids[j])
    && (forall v :: v in ids <==> v in d.Values)
  }

  /** d is the part of m collected so far. */
  ghost predicate Collected(ids: seq<int>, d: map<Node, int>, m: map<Node, int>) {
    && Injective(m)
    && (forall x | x in d :: x in m && d[x] == m[x])
    && Lists(ids, d)
  }

  lemma NotListed(ids: seq<int>, d: map<Node, int>, v: int)
    requires Lists(ids, d) && v !in d.Values
    ensures v !in ids
  {}

  lemma Collect1(ids: seq<int>, d: map<Node, int>, m: map<Node, int>, x: Node)
    requires Collected(ids, d, m) && x in m && x !in d
    ensures Collected(ids + [m[x]], d[x := m[x]], m)
  {
    var d' := d[x := m[x]];
    forall y | y in d
      ensures d[y] != m[x]
    {
      assert m[y] != m[x];
    }
    assert m[x] !in d.Values;
    NotListed(ids, d, m[x]);
    forall v
      ensures v in ids + [m[x]] <==> v in d'.Values
    {
      if v in d.Values {
        var y :| y in d && d[y] == v;
        assert d'[y] == v;
      }
      if v == m[x] { assert d'[x] == v; }
    }
  }

  /** The entries from..to of an index buffer are those of the data blocks from
      base + from on, none of them collected yet. */
  ghost predicate Feeds(buf: Block, base: nat, from: int, to: int, m: map<Node, int>, d: map<Node, int>) {
    to <= WORDS && forall j: nat {:trigger GetWord(buf, j)} {:trigger FeedsAt(buf, base, j, m, d)} | from <= j < to ::
      FeedsAt(buf, base, j, m, d)
  }

  ghost predicate FeedsAt(buf: Block, base: nat, j: nat, m: map<Node, int>, d: map<Node, int>)
    requires j < WORDS
  {
    Data(base + j) in m && Data(base + j) !in d && GetWord(buf, j) == m[Data(base + j)]
  }

  /** Outside the index blocks that stay, and one further block at most, the device
      is as it was; in particular the bitmap is. */
  ghost predicate OnlyKept(m1: map<Node, int>, s0: seq<Block>, s: seq<Block>, extra: int) {
    |s| == |s0| && forall b | 0 <= b < |s| && !IsIndex(m1, b) && b != extra :: s[b] == s0[b]
  }

  /** The state of a shrink from tree m to its part m1: the inode and the device hold
      m1 already, the original tree can still be read where it has not been passed. */
  ghost predicate Shrinking(bm: Area, t: Root, s: seq<Block>, m: map<Node, int>, m1: map<Node, int>, s0: seq<Block>,
          extra: int)
  {
    && Laid(bm, s)
    && Rep(t, s, m1, bm.offset, bm.Limit())
    && ClosedPart(m1, m)
    && OnlyKept(m1, s0, s, extra)
    && extra < bm.start
  }

  lemma CutClosed(m: map<Node, int>, n: nat, t: Root, s: seq<Block>, lo: int, hi: int)
    requires Rep(t, s, m, lo, hi)
    ensures ClosedPart(Cut(m, n), m)
  {}

  /** A kept index block may be replaced by one with the same entries for all the
      positions that stay. */
  lemma ShrinkBlock(bm: Area, t: Root, s: seq<Block>, m: map<Node, int>, m1: map<Node, int>, s0: seq<Block>, extra: int,
          q: Node, p: Block)
    requires Shrinking(bm, t, s, m, m1, s0, extra) && q in m1 && !q.Data?
    requires 0 <= m1[q] < |s|
    requires forall x | x in m1 && !IsRoot(x) && Parent(x) == q ::
      EntryIndex(x) < WORDS && GetWord(p, EntryIndex(x)) == GetWord(s[m1[q]], EntryIndex(x))
    ensures Shrinking(bm, t, s[m1[q] := p], m, m1, s0, extra)
  {}

  ghost function SetOf(ids: seq<int>): (r: set<int>)
    ensures forall v :: v in r <==> v in ids
  {
    set v | v in ids
  }

  /** The ids collected are those of m that m1 does not have. */
  lemma CollectedAll(ids: seq<int>, d: map<Node, int>, m: map<Node, int>, m1: map<Node, int>)
    requires Collected(ids, d, m) && ClosedPart(m1, m)
    requires forall x :: x in d <==> x in m && x !in m1
    ensures SetOf(ids) == m.Values - m1.Values
  {
    assert forall x | x in m1 :: m1[x] in m1.Values;
    forall v
      ensures v in SetOf(ids) <==> v in m.Values - m1.Values
    {
      assert v in ids <==> v in d.Values;
      if v in d.Values {
        var x :| x in d && d[x] == v;
        assert m[x] == v;
      }
      if v in m.Values - m1.Values {
        var x :| x in m && m[x] == v;
        assert d[x] == v;
      }
    }
  }

  /** A shrink from tree m, in inode t0 on device s0, to n1 data blocks. The block
      `extra` (or -1) is one below the bitmap that a stray write may hit. */
  datatype Cutting = Cutting(t0: Root, s0: seq<Block>, m: map<Node, int>, m1: map<Node, int>, n0: nat, n1: nat,
    extra: int)

  ghost predicate Planned(bm: Area, g: Cutting) {
    && g.n1 <= g.n0 <= MAX_BLOCKS
    && Laid(bm, g.s0)
    && Rep(g.t0, g.s0, g.m, bm.offset, bm.Limit())
    && At(g.m, g.n0, g.n0 > DIRECT, g.n0 > SINGLE, Seconds(g.n0))
    && g.m1 == Cut(g.m, g.n1)
  }

  /** The inode t, the device s and the ids collected so far, in the course of g. */
  ghost predicate Passing(bm: Area, t: Root, s: seq<Block>, g: Cutting, ids: seq<int>, d: map<Node, int>) {
    && Planned(bm, g)
    && Shrinking(bm, t, s, g.m, g.m1, g.s0, g.extra)
    && Collected(ids, d, g.m)
  }

  /** The positions collected so far: the data blocks from n1 to hi, and so on. */
  ghost predicate Gone(d: map<Node, int>, g: Cutting, hi: int, i1: bool, i2: bool, b1: int) {
    forall x :: x in d <==> match x
      case Data(i) => g.n1 <= i < hi
      case Ind1 => i1
      case Ind2 => i2
      case Second(b) => Seconds(g.n1) <= b < b1
  }

  lemma PassingStart(bm: Area, t: Root, s: seq<Block>, n0: nat, n1: nat, extra: int)
    requires FileOk(bm, t, s, n0) && n1 <= n0 && extra < bm.start
    ensures var m := TreeOf(t, s, n0); Passing(bm, t, s, Cutting(t, s, m, Cut(m, n1), n0, n1, extra), [], map[])
  {
    var m := TreeOf(t, s, n0);
    CutClosed(m, n1, t, s, bm.offset, bm.Limit());
    RepPart(t, s, m, Cut(m, n1), bm.offset, bm.Limit());
  }

  lemma PassingFacts(bm: Area, t: Root, s: seq<Block>, g: Cutting, ids: seq<int>, d: map<Node, int>)
    requires Passing(bm, t, s, g, ids, d)
    ensures |t.direct| == |g.t0.direct| == DIRECT && |s| == |g.s0| && Laid(bm, s) && g.n1 <= g.n0 <= MAX_BLOCKS
    ensures forall x | x in g.m :: bm.Manages(g.m[x]) && 0 <= g.m[x] < |s|
    ensures forall x :: x in g.m1 <==> x in g.m && InTree(x, g.n1)
    ensures forall x :: x in g.m <==> InTree(x, g.n0)
    ensures forall x | x in g.m && IsRoot(x) :: g.m[x] == RootPointer(g.t0, x)
    ensures forall x | x in g.m1 :: g.m1[x] == g.m[x] && (IsRoot(x) ==> g.m[x] == RootPointer(t, x))
  {}

  lemma PassingCollect(bm: Area, t: Root, s: seq<Block>, g: Cutting, ids: seq<int>, d: map<Node, int>, x: Node)
    requires Passing(bm, t, s, g, ids, d) && x in g.m && x !in d
    ensures Passing(bm, t, s, g, ids + [g.m[x]], d[x := g.m[x]])
  {
    hide Planned, Shrinking, Collected;
    Collect1(ids, d, g.m, x);
  }

  lemma PassingRoot(bm: Area, t: Root, t': Root, s: seq<Block>, g: Cutting, ids: seq<int>, d: map<Node, int>)
    requires Passing(bm, t, s, g, ids, d)
    requires |t'.direct| == |t.direct| == DIRECT
    requires forall i | 0 <= i < DIRECT && Data(i) in g.m1 :: t'.direct[i] == t.direct[i]
    requires t'.indirect1 == t.indirect1 || Ind1 !in g.m1
    requires t'.indirect2 == t.indirect2 || Ind2 !in g.m1
    ensures Passing(bm, t', s, g, ids, d)
  {}

  /** A kept index block written back with its kept entries unchanged. */
  lemma PassingBlock(bm: Area, t: Root, s: seq<Block>, g: Cutting, ids: seq<int>, d: map<Node, int>, q: Node, p: Block)
    requires Passing(bm, t, s, g, ids, d) && q in g.m1 && !q.Data?
    requires forall x | x in g.m1 && !IsRoot(x) && Parent(x) == q ::
      EntryIndex(x) < WORDS && GetWord(p, EntryIndex(x)) == g.m[x]
    ensures q in g.m && 0 <= g.m[q] < |s| && Passing(bm, t, s[g.m[q] := p], g, ids, d)
  {
    hide Collected, GetWord;
    assert g.m1[q] == g.m[q] && 0 <= g.m[q] < |s|;
    forall x | x in g.m1 && !IsRoot(x) && Parent(x) == q
      ensures EntryIndex(x) < WORDS && GetWord(p, EntryIndex(x)) == GetWord(s[g.m[q]], EntryIndex(x))
    {
      assert Points(t, s, g.m1, x);
    }
    ShrinkBlock(bm, t, s, g.m, g.m1, g.s0, g.extra, q, p);
  }

  lemma PassingStray(bm: Area, t: Root, s: seq<Block>, g: Cutting, ids: seq<int>, d: map<Node, int>, p: Block)
    requires Passing(bm, t, s, g, ids, d) && 0 <= g.extra < |s|
    ensures Passing(bm, t, s[g.extra := p], g, ids, d)
  {}

  /** The entries of an index block that is still as it was. */
  lemma PassingEntries(bm: Area, t: Root, s: seq<Block>, g: Cutting, ids: seq<int>, d: map<Node, int>, q: Node)
    requires Passing(bm, t, s, g, ids, d) && q in g.m && !q.Data?
    requires q !in g.m1 || (0 <= g.m[q] < |s| == |g.s0| && s[g.m[q]] == g.s0[g.m[q]])
    ensures 0 <= g.m[q] < |s|
    ensures forall x | x in g.m && !IsRoot(x) && Parent(x) == q ::
      EntryIndex(x) < WORDS && GetWord(s[g.m[q]], EntryIndex(x)) == g.m[x]
  {}

  lemma PassingCollected(bm: Area, t: Root, s: seq<Block>, g: Cutting, ids: seq<int>, d: map<Node, int>)
    requires Passing(bm, t, s, g, ids, d)
    ensures Collected(ids, d, g.m) && g.n1 <= g.n0 <= MAX_BLOCKS
  {}

  lemma PassingIds(bm: Area, t: Root, s: seq<Block>, g: Cutting, ids: seq<int>, d: map<Node, int>, ids': seq<int>,
          d': map<Node, int>)
    requires Passing(bm, t, s, g, ids, d) && Collected(ids', d', g.m)
    ensures Passing(bm, t, s, g, ids', d')
  {}

  /** Collected: all that goes, up to the i-th second-level index block. */
  ghost predicate GoneTo(d: map<Node, int>, g: Cutting, i: int) {
    Gone(d, g, if g.n0 < SINGLE + WORDS * i then g.n0 else SINGLE + WORDS * i, g.n0 > DIRECT >= g.n1, false, i)
  }

  /** The data blocks under the i-th second-level index block, from entry `from` on. */
  lemma UnderSecond(bm: Area, t: Root, s: seq<Block>, g: Cutting, ids: seq<int>, d: map<Node, int>, i: nat, from: nat,
          to: int)
    requires Passing(bm, t, s, g, ids, d) && GoneTo(d, g, i) && i < Seconds(g.n0) && to <= WORDS
    requires SINGLE + WORDS * i + to <= g.n0
    requires g.n1 <= SINGLE + WORDS * i + from
    requires i < Seconds(g.n1) ==>
      Second(i) in g.m && 0 <= g.m[Second(i)] < |s| == |g.s0| && s[g.m[Second(i)]] == g.s0[g.m[Second(i)]]
    ensures Second(i) in g.m && Second(i) !in d && 0 <= g.m[Second(i)] < |s|
    ensures Feeds(s[g.m[Second(i)]], SINGLE + WORDS * i, from, to, g.m, d)
    ensures Second(i) in g.m1 ==> forall x | x in g.m1 && !IsRoot(x) && Parent(x) == Second(i) ::
      EntryIndex(x) < WORDS && x == Data(SINGLE + WORDS * i + EntryIndex(x)) && x.i < g.n1 &&
        GetWord(s[g.m[Second(i)]], EntryIndex(x)) == g.m[x]
  {
    hide GetWord, Collected, Shrinking, Passing, GoneTo, FeedsAt;
    PassingFacts(bm, t, s, g, ids, d);
    SecondGoes(bm, t, s, g, ids, d, i);
    if Second(i) in g.m1 { TrimEntries(bm, t, s, g, ids, d, i); }
    PassingEntries(bm, t, s, g, ids, d, Second(i));
    var buf, base := s[g.m[Second(i)]], SINGLE + WORDS * i;
    forall j: nat | from <= j < to
      ensures FeedsAt(buf, base, j, g.m, d)
    {
      UnderSecondAt(bm, t, s, g, ids, d, i, from, j);
    }
  }

  lemma SecondGoes(bm: Area, t: Root, s: seq<Block>, g: Cutting, ids: seq<int>, d: map<Node, int>, i: nat)
    requires Passing(bm, t, s, g, ids, d) && GoneTo(d, g, i) && i < Seconds(g.n0)
    ensures Second(i) in g.m && Second(i) !in d && 0 <= g.m[Second(i)] < |s|
  {}

  lemma UnderSecondAt(bm: Area, t: Root, s: seq<Block>, g: Cutting, ids: seq<int>, d: map<Node, int>, i: nat, from: nat,
          j: nat)
    requires Passing(bm, t, s, g, ids, d) && GoneTo(d, g, i) && Second(i) in g.m && 0 <= g.m[Second(i)] < |s|
    requires from <= j < WORDS && SINGLE + WORDS * i + j < g.n0 && g.n1 <= SINGLE + WORDS * i + from
    requires forall x | x in g.m && !IsRoot(x) && Parent(x) == Second(i) ::
      EntryIndex(x) < WORDS && GetWord(s[g.m[Second(i)]], EntryIndex(x)) == g.m[x]
    ensures FeedsAt(s[g.m[Second(i)]], SINGLE + WORDS * i, j, g.m, d)
  {
    hide GetWord, Collected, Shrinking, Passing;
    PassingFacts(bm, t, s, g, ids, d);
    var x := Data(SINGLE + WORDS * i + j);
    assert x in g.m && !IsRoot(x) && Parent(x) == Second(i) && EntryIndex(x) == j;
  }

  lemma TrimGone(d0: map<Node, int>, d: map<Node, int>, g: Cutting, i: int, from: int, to: int)
    requires GoneTo(d0, g, i) && 0 <= i == Seconds(g.n1) - 1 && from == g.n1 - SINGLE - WORDS * i && g.n1 <= g.n0
    requires to == (if WORDS < g.n0 - SINGLE - WORDS * i then WORDS else g.n0 - SINGLE - WORDS * i)
    requires forall x :: x in d <==> x in d0 || (x.Data? && SINGLE + WORDS * i + from <= x.i < SINGLE + WORDS * i + to)
    ensures GoneTo(d, g, i + 1)
  {}

  lemma DropGone(d0: map<Node, int>, d: map<Node, int>, g: Cutting, i: int, to: int)
    requires GoneTo(d0, g, i) && Seconds(g.n1) <= i < Seconds(g.n0)
    requires to == (if WORDS < g.n0 - SINGLE - WORDS * i then WORDS else g.n0 - SINGLE - WORDS * i)
    requires forall x ::
      x in d <==> x in d0 || (x.Data? && SINGLE + WORDS * i <= x.i < SINGLE + WORDS * i + to) || x == Second(i)
    ensures GoneTo(d, g, i + 1)
  {}

  /** What a stray write of the buffer of second-level index block i leaves there: the
      pointers of the data blocks under it that stay. */
  ghost predicate Clobbered(s: seq<Block>, g: Cutting, i: nat, from: int) {
    ClobberedBy(s, g.m, i, from)
  }

  ghost predicate ClobberedBy(s: seq<Block>, m: map<Node, int>, i: nat, from: int) {
    i < |s| && from <= WORDS && forall j: nat {:trigger GetWord(s[i], j)} | j < from ::
      PointerOf(m, Data(SINGLE + WORDS * i + j), GetWord(s[i], j))
  }

  ghost predicate PointerOf(m: map<Node, int>, x: Node, v: int) {
    x in m && m[x] == v
  }

  lemma ClobberKept(s: seq<Block>, g: Cutting, i: nat, from: int, b: nat, p: Block)
    requires Clobbered(s, g, i, from) && b < |s| && b != i
    ensures Clobbered(s[b := p], g, i, from)
  {}

  /** Writing the trimmed buffer to its own block, or to block i. */
  lemma TrimBlock(bm: Area, t: Root, s: seq<Block>, g: Cutting, ids: seq<int>, d: map<Node, int>, i: nat, from: int,
          ind0: Block, ind1: Block)
    requires Passing(bm, t, s, g, ids, d) && i == Seconds(g.n1) - 1 && from == g.n1 - SINGLE - WORDS * i && i < WORDS
    requires Second(i) in g.m && 0 <= g.m[Second(i)] < |s| && ind0 == s[g.m[Second(i)]]
    requires forall k: nat | k < WORDS && k < from :: GetWord(ind1, k) == GetWord(ind0, k)
    ensures Passing(bm, t, s[g.m[Second(i)] := ind1], g, ids, d)
    ensures g.extra == i ==> i < |s| && Clobbered(s[i := ind1], g, i, from)
  {
    hide GetWord, Passing, Clobbered;
    PassingFacts(bm, t, s, g, ids, d);
    assert Second(i) in g.m1;
    TrimEntries(bm, t, s, g, ids, d, i);
    forall x | x in g.m1 && !IsRoot(x) && Parent(x) == Second(i)
      ensures EntryIndex(x) < WORDS && GetWord(ind1, EntryIndex(x)) == g.m[x]
    {
      assert x == Data(SINGLE + WORDS * i + EntryIndex(x)) && EntryIndex(x) < from;
    }
    PassingBlock(bm, t, s, g, ids, d, Second(i), ind1);
    if g.extra == i {
      TrimClobber(bm, t, s, g, ids, d, i, from, ind1);
    }
  }

  lemma TrimClobber(bm: Area, t: Root, s: seq<Block>, g: Cutting, ids: seq<int>, d: map<Node, int>, i: nat, from: int,
          ind1: Block)
    requires Passing(bm, t, s, g, ids, d) && i == Seconds(g.n1) - 1 && from == g.n1 - SINGLE - WORDS * i && i < WORDS
    requires i < |s|
    requires forall x | x in g.m1 && !IsRoot(x) && Parent(x) == Second(i) ::
      EntryIndex(x) < WORDS && GetWord(ind1, EntryIndex(x)) == g.m[x]
    ensures Clobbered(s[i := ind1], g, i, from)
  {
    hide GetWord, Passing, PointerOf;
    forall j: nat | j < from
      ensures PointerOf(g.m, Data(SINGLE + WORDS * i + j), GetWord(ind1, j))
    {
      TrimPointer(bm, t, s, g, ids, d, i, from, ind1, j);
    }
  }

  lemma TrimPointer(bm: Area, t: Root, s: seq<Block>, g: Cutting, ids: seq<int>, d: map<Node, int>, i: nat, from: int,
          ind1: Block, j: nat)
    requires Passing(bm, t, s, g, ids, d) && i == Seconds(g.n1) - 1 && j < from == g.n1 - SINGLE - WORDS * i
    requires i < WORDS
    requires forall x | x in g.m1 && !IsRoot(x) && Parent(x) == Second(i) ::
      EntryIndex(x) < WORDS && GetWord(ind1, EntryIndex(x)) == g.m[x]
    ensures j < WORDS && PointerOf(g.m, Data(SINGLE + WORDS * i + j), GetWord(ind1, j))
  {
    hide GetWord, Passing;
    PassingFacts(bm, t, s, g, ids, d);
    var x := Data(SINGLE + WORDS * i + j);
    assert x in g.m1 && !IsRoot(x) && Parent(x) == Second(i) && EntryIndex(x) == j;
  }

  lemma TrimEntries(bm: Area, t: Root, s: seq<Block>, g: Cutting, ids: seq<int>, d: map<Node, int>, i: nat)
    requires Passing(bm, t, s, g, ids, d) && Second(i) in g.m1
    ensures Second(i) in g.m && 0 <= g.m[Second(i)] < |s| && g.extra < bm.start <= bm.offset <= |s|
    ensures forall x | x in g.m1 && !IsRoot(x) && Parent(x) == Second(i) ::
      EntryIndex(x) < WORDS && x == Data(SINGLE + WORDS * i + EntryIndex(x)) && x.i < g.n1 &&
        GetWord(s[g.m[Second(i)]], EntryIndex(x)) == g.m[x]
  {
    hide GetWord, Collected;
    forall x | x in g.m1 && !IsRoot(x) && Parent(x) == Second(i)
      ensures EntryIndex(x) < WORDS && x == Data(SINGLE + WORDS * i + EntryIndex(x)) && x.i < g.n1
      ensures GetWord(s[g.m[Second(i)]], EntryIndex(x)) == g.m[x]
    {
      assert Points(t, s, g.m1, x);
    }
  }

  lemma PassingDistinct(bm: Area, t: Root, s: seq<Block>, g: Cutting, ids: seq<int>, d: map<Node, int>)
    requires Passing(bm, t, s, g, ids, d)
    ensures Injective(g.m)
  {}

  /** The data blocks under indirect1 that go. */
  lemma UnderSingle(bm: Area, t: Root, s: seq<Block>, g: Cutting, ids: seq<int>, d: map<Node, int>, buf: Block,
          from: nat, to: int)
    requires Passing(bm, t, s, g, ids, d) && Gone(d, g, if g.n0 < DIRECT then g.n0 else DIRECT, false, false, 0)
    requires forall x | x in g.m && !IsRoot(x) && Parent(x) == Ind1 ::
      EntryIndex(x) < WORDS && GetWord(buf, EntryIndex(x)) == g.m[x]
    requires to <= WORDS && DIRECT + to <= g.n0
    ensures Feeds(buf, DIRECT, from, to, g.m, d)
  {
    hide GetWord, Passing, Gone, Parent, EntryIndex, IsRoot;
    forall j: nat | from <= j < to
      ensures FeedsAt(buf, DIRECT, j, g.m, d)
    {
      UnderSingleAt(bm, t, s, g, ids, d, buf, j);
    }
  }

  lemma UnderSingleAt(bm: Area, t: Root, s: seq<Block>, g: Cutting, ids: seq<int>, d: map<Node, int>, buf: Block,
          j: nat)
    requires Passing(bm, t, s, g, ids, d) && Gone(d, g, if g.n0 < DIRECT then g.n0 else DIRECT, false, false, 0)
    requires forall x | x in g.m && !IsRoot(x) && Parent(x) == Ind1 ::
      EntryIndex(x) < WORDS && GetWord(buf, EntryIndex(x)) == g.m[x]
    requires j < WORDS && DIRECT + j < g.n0
    ensures Data(DIRECT + j) in g.m && Data(DIRECT + j) !in d && GetWord(buf, j) == g.m[Data(DIRECT + j)]
  {}

  /** A buffer of indirect1 keeps the entries below what was taken. */
  lemma SingleEntries(bm: Area, t: Root, s: seq<Block>, g: Cutting, ids: seq<int>, d: map<Node, int>, buf: Block,
          buf': Block)
    requires Passing(bm, t, s, g, ids, d)
    requires forall x | x in g.m && !IsRoot(x) && Parent(x) == Ind1 ::
      EntryIndex(x) < WORDS && GetWord(buf, EntryIndex(x)) == g.m[x]
    requires forall k: nat | k < WORDS && DIRECT + k < g.n1 :: GetWord(buf', k) == GetWord(buf, k)
    ensures forall x | x in g.m1 && !IsRoot(x) && Parent(x) == Ind1 ::
      EntryIndex(x) < WORDS && GetWord(buf', EntryIndex(x)) == g.m[x]
  {}

  /** Every device state from position h on has the bitmap of s0. */
  ghost predicate Quiet(history: seq<seq<Block>>, h: nat, bm: Area, s0: seq<Block>) {
    h <= |history| && forall k | h <= k < |history| :: SameBitmapArea(bm, history[k], s0)
  }

  ghost predicate SameBitmapArea(bm: Area, a: seq<Block>, b: seq<Block>) {
    |a| == |b| && forall i | bm.IsBitmapBlock(i) && 0 <= i < |a| :: a[i] == b[i]
  }

  lemma PassingQuiet(bm: Area, t: Root, s: seq<Block>, g: Cutting, ids: seq<int>, d: map<Node, int>)
    requires Passing(bm, t, s, g, ids, d)
    ensures SameBitmapArea(bm, s, g.s0)
  {}

  /** The second-level index blocks, as read from a copy of indirect2. */
  lemma SecondPointers(bm: Area, t: Root, s: seq<Block>, g: Cutting, ids: seq<int>, d: map<Node, int>)
    requires Passing(bm, t, s, g, ids, d) && g.n0 > SINGLE
    requires forall q | q in g.m && q != Ind1 :: 0 <= g.m[q] < |s| == |g.s0| && s[g.m[q]] == g.s0[g.m[q]]
    ensures Ind2 in g.m && g.m[Ind2] == g.t0.indirect2 && 0 <= g.m[Ind2] < |s| && |s| == |g.s0|
    ensures Seconds(g.n0) <= WORDS && g.n1 <= g.n0 <= MAX_BLOCKS
    ensures Pointed(s[g.m[Ind2]], g)
    ensures Ind2 in g.m1 <==> g.n1 > SINGLE
  {}

  /** The buffer p of indirect2 has the pointers of all second-level index blocks. */
  ghost predicate Pointed(p: Block, g: Cutting) {
    Seconds(g.n0) <= WORDS && forall b: nat | b < Seconds(g.n0) :: Second(b) in g.m && GetWord(p, b) == g.m[Second(b)]
  }

  lemma PointedKept(bm: Area, t: Root, s: seq<Block>, g: Cutting, ids: seq<int>, d: map<Node, int>, p: Block)
    requires Passing(bm, t, s, g, ids, d) && Pointed(p, g) && g.n1 > SINGLE
    ensures Ind2 in g.m && 0 <= g.m[Ind2] < |s| && g.m[Ind2] == t.indirect2
    ensures Passing(bm, t, s[g.m[Ind2] := p], g, ids, d)
    ensures forall i: nat, from: int | Clobbered(s, g, i, from) && i == g.extra ::
      Clobbered(s[g.m[Ind2] := p], g, i, from)
  {
    hide GetWord, Passing;
    PassingExtra(bm, t, s, g, ids, d);
    PassingFacts(bm, t, s, g, ids, d);
    forall x | x in g.m1 && !IsRoot(x) && Parent(x) == Ind2
      ensures EntryIndex(x) < WORDS && GetWord(p, EntryIndex(x)) == g.m[x]
    {
      assert x == Second(EntryIndex(x)) && x in g.m;
    }
    PassingBlock(bm, t, s, g, ids, d, Ind2, p);
    assert g.extra < g.m[Ind2];
    forall i: nat, from: int | Clobbered(s, g, i, from) && i == g.extra
      ensures Clobbered(s[g.m[Ind2] := p], g, i, from)
    {
      ClobberKept(s, g, i, from, g.m[Ind2], p);
    }
  }

  /** When all second-level index blocks are collected, indirect2 is what is left. */
  lemma Ind2Left(bm: Area, t: Root, s: seq<Block>, g: Cutting, ids: seq<int>, d: map<Node, int>, i: nat)
    requires Passing(bm, t, s, g, ids, d) && GoneTo(d, g, i) && i == Seconds(g.n0) && g.n1 <= SINGLE < g.n0
    ensures Ind2 in g.m && Ind2 !in d && Ind2 !in g.m1 && g.m[Ind2] == g.t0.indirect2
    ensures |t.direct| == DIRECT
    ensures Gone(d[Ind2 := g.m[Ind2]], g, g.n0, g.n0 > DIRECT >= g.n1, true, Seconds(g.n0))
  {
    hide Passing;
    PassingFacts(bm, t, s, g, ids, d);
    assert Ind2 in g.m;
  }

  /** The blocks before the last second-level index block that stays are not in play. */
  lemma SkipTo(d: map<Node, int>, g: Cutting, i: nat)
    requires GoneTo(d, g, 0) && SINGLE < g.n1 <= g.n0 && i == Seconds(g.n1) - 1
    ensures GoneTo(d, g, i)
  {}

  lemma AllGone(d: map<Node, int>, g: Cutting, i: nat)
    requires GoneTo(d, g, i) && SINGLE < g.n1 <= g.n0 && i == Seconds(g.n0)
    ensures Gone(d, g, g.n0, false, false, Seconds(g.n0))
  {}

  lemma PointedAt(p: Block, g: Cutting, i: nat)
    requires Pointed(p, g) && i < Seconds(g.n0)
    ensures i < WORDS && Second(i) in g.m && GetWord(p, i) == g.m[Second(i)]
  {}

  lemma PassingExtra(bm: Area, t: Root, s: seq<Block>, g: Cutting, ids: seq<int>, d: map<Node, int>)
    requires Passing(bm, t, s, g, ids, d)
    ensures forall x | x in g.m :: g.extra < g.m[x]
  {}

  /** A shrink has collected all that goes. */
  ghost predicate Complete(bm: Area, t: Root, s: seq<Block>, g: Cutting, ids: seq<int>) {
    exists d :: Passing(bm, t, s, g, ids, d) && forall x :: x in d <==> x in g.m && x !in g.m1
  }

  lemma CompleteFrom(bm: Area, t: Root, s: seq<Block>, g: Cutting, ids: seq<int>, d: map<Node, int>, i2: bool)
    requires Passing(bm, t, s, g, ids, d)
    requires Gone(d, g, g.n0, g.n0 > DIRECT >= g.n1, i2, Seconds(g.n0)) && (i2 <==> g.n0 > SINGLE >= g.n1)
    ensures Complete(bm, t, s, g, ids)
  {}

  /** The device outside the bitmap, the kept index blocks, `extra` and the block of
      the inode, is as it was. */
  ghost predicate OnlyShrunk(bm: Area, m1: map<Node, int>, s0: seq<Block>, s: seq<Block>, extra: int, inode: int) {
    && |s| == |s0|
    && forall b | 0 <= b < |s| && !bm.IsBitmapBlock(b) && !IsIndex(m1, b) && b != extra && b != inode :: s[b] == s0[b]
  }

  /** A shrink from tree m0 on device s0 to its part m1, of n data blocks, on device s:
      exactly the ids of the positions that go are free afterwards, the others keep
      their blocks, and the rest of the device is as it was. */
  ghost predicate ShrunkExactly(bm: Area, m0: map<Node, int>, m1: map<Node, int>, n: nat, s0: seq<Block>, s: seq<Block>,
          extra: int, inode: int)
  {
    && bm.Fits(s0) && bm.Fits(s)
    && m1 == Cut(m0, n)
    && Used(bm, s) == Used(bm, s0) - (m0.Values - m1.Values)
    && OnlyShrunk(bm, m1, s0, s, extra, inode)
  }

  lemma ShrunkSize(bm: Area, m0: map<Node, int>, m1: map<Node, int>, n: nat, s0: seq<Block>, s: seq<Block>, extra: int,
          inode: int)
    requires ShrunkExactly(bm, m0, m1, n, s0, s, extra, inode)
    ensures |s| == |s0|
  {}

  /** The shrink is finished: the inode has been written (or not), the collected ids
      have been freed, and the file is in order with its new size. */
  lemma ShrinkDone(bm: Area, t: Root, s: seq<Block>, s1: seq<Block>, s2: seq<Block>, g: Cutting, ids: seq<int>,
          inode: int)
    requires Complete(bm, t, s, g, ids) && g.m.Values <= Used(bm, g.s0) && g.extra < bm.start
    requires |s1| == |s| && inode < bm.start && forall b | 0 <= b < |s| && b != inode :: s1[b] == s[b]
    requires bm.Fits(s1) && bm.Fits(s2) && SameOutside(bm, s1, s2) && Used(bm, s2) == Used(bm, s1) - SetOf(ids)
    requires (t.indirect1 != 0 <==> g.n1 > DIRECT) && (t.indirect2 != 0 <==> g.n1 > SINGLE)
    ensures FileOk(bm, t, s2, g.n1) && TreeOf(t, s2, g.n1) == g.m1
    ensures ShrunkExactly(bm, g.m, g.m1, g.n1, g.s0, s2, g.extra, inode)
  {
    hide Used, Collected, Points, TreeOf, Passing, Rep, IsIndex, Area.Fits, Cut;
    var d :| Passing(bm, t, s, g, ids, d) && forall x :: x in d <==> x in g.m && x !in g.m1;
    PassingFacts(bm, t, s, g, ids, d);
    PassingPlan(bm, t, s, g, ids, d);
    CompleteSets(bm, t, s, s1, g, ids, d, inode);
    CompleteRep(bm, t, s, s2, g, ids, d);
  }

  lemma CompleteSets(bm: Area, t: Root, s: seq<Block>, s1: seq<Block>, g: Cutting, ids: seq<int>, d: map<Node, int>,
          inode: int)
    requires Passing(bm, t, s, g, ids, d) && forall x :: x in d <==> x in g.m && x !in g.m1
    requires |s1| == |s| && bm.Fits(s1) && inode < bm.start && forall b | 0 <= b < |s| && b != inode :: s1[b] == s[b]
    ensures bm.Fits(g.s0) && Used(bm, s1) == Used(bm, g.s0) && SetOf(ids) == g.m.Values - g.m1.Values
    ensures g.m1.Values <= g.m.Values
    ensures forall b | 0 <= b < |s| && !IsIndex(g.m1, b) && b != g.extra :: s[b] == g.s0[b]
  {
    hide Used, Collected, Points, Rep, SetOf;
    CollectedAll(ids, d, g.m, g.m1);
    PassingQuiet(bm, t, s, g, ids, d);
    SameBitmap(bm, s1, g.s0);
    forall v | v in g.m1.Values
      ensures v in g.m.Values
    {
      var x :| x in g.m1 && g.m1[x] == v;
      assert g.m[x] == v;
    }
  }

  lemma CompleteRep(bm: Area, t: Root, s: seq<Block>, s2: seq<Block>, g: Cutting, ids: seq<int>, d: map<Node, int>)
    requires Passing(bm, t, s, g, ids, d) && |s2| == |s|
    requires forall b | bm.Manages(b) && 0 <= b < |s| :: s2[b] == s[b]
    ensures WellFormed(t, s2, g.n1, bm.offset, bm.Limit()) && TreeOf(t, s2, g.n1) == g.m1
  {
    hide Collected, Points, TreeOf, OnlyKept, Cut;
    assert forall x | x in g.m1 :: bm.Manages(g.m1[x]);
    RepFrame(t, s, s2, g.m1, bm.offset, bm.Limit());
    KeptKeys(g);
    RepTree(t, s2, g.m1, g.n1, bm.offset, bm.Limit());
  }

  lemma KeptKeys(g: Cutting)
    requires g.n1 <= g.n0 && g.m1 == Cut(g.m, g.n1) && At(g.m, g.n0, g.n0 > DIRECT, g.n0 > SINGLE, Seconds(g.n0))
    ensures forall x :: x in g.m1 <==> InTree(x, g.n1)
  {}

  /** In every device state from position h on, the ids of keep are in use. */
  ghost predicate Covers(history: seq<seq<Block>>, h: nat, bm: Area, keep: set<int>) {
    h <= |history| && forall k | h <= k < |history| :: bm.Fits(history[k]) && keep <= Used(bm, history[k])
  }

  lemma FitsSame(bm: Area, s: seq<Block>)
    requires bm.Fits(s)
    ensures forall s': seq<Block> | |s'| == |s| :: bm.Fits(s')
  {}

  lemma GoneStart(d: map<Node, int>, g: Cutting)
    requires Gone(d, g, if g.n0 < SINGLE then g.n0 else SINGLE, g.n0 > DIRECT >= g.n1, false, 0) && g.n1 <= g.n0
    ensures GoneTo(d, g, 0)
    ensures g.n0 <= SINGLE ==> Gone(d, g, g.n0, g.n0 > DIRECT >= g.n1, false, Seconds(g.n0))
  {}

  /** The order of a shrink, as the device sees it: up to position w the bitmap is
      that of s0, and from then on the ids of keep are in use at every step. */
  ghost predicate WrittenThenFreed(history: seq<seq<Block>>, h: nat, w: nat, bm: Area, s0: seq<Block>, keep: set<int>) {
    && h <= w <= |history|
    && (forall k | h <= k < w :: SameBitmapArea(bm, history[k], s0))
    && Covers(history, w, bm, keep)
  }

  /** That is: before position w no bitmap block differs, and after it no block of the
      tree that stays is free, at any moment. */
  lemma OrderMeans(history: seq<seq<Block>>, h: nat, w: nat, bm: Area, s0: seq<Block>, keep: set<int>)
    requires WrittenThenFreed(history, h, w, bm, s0, keep) && bm.Fits(s0)
    ensures h <= w <= |history|
    ensures forall k | h <= k < w ::
      && |history[k]| == |s0|
      && forall i | bm.start <= i < bm.start + bm.num :: i < |s0| && history[k][i] == s0[i]
    ensures forall k | w <= k < |history| :: bm.Fits(history[k]) && keep <= Used(bm, history[k])
  {
    hide Used;
  }

  lemma PassingPlan(bm: Area, t: Root, s: seq<Block>, g: Cutting, ids: seq<int>, d: map<Node, int>)
    requires Passing(bm, t, s, g, ids, d)
    ensures g.m1 == Cut(g.m, g.n1) && g.extra < bm.start && Laid(bm, g.s0)
  {}

  /** What freeing needs to know of a shrink that has collected all that goes. */
  lemma CompleteReady(bm: Area, t: Root, s: seq<Block>, g: Cutting, ids: seq<int>)
    requires Complete(bm, t, s, g, ids) && g.m.Values <= Used(bm, g.s0)
    ensures |t.direct| == DIRECT && Laid(bm, s) && bm.Fits(s) && |s| == |g.s0| && bm.start <= |s|
    ensures forall id | id in ids :: bm.Manages(id)
    ensures g.m1.Values <= Used(bm, s) && g.m1.Values !! SetOf(ids) && SameBitmapArea(bm, s, g.s0)
    ensures forall b | 0 <= b < bm.start && b != g.extra :: s[b] == g.s0[b]
  {
    hide Used, Collected, Points, Passing;
    var d :| Passing(bm, t, s, g, ids, d) && forall x :: x in d <==> x in g.m && x !in g.m1;
    PassingFacts(bm, t, s, g, ids, d);
    PassingPlan(bm, t, s, g, ids, d);
    PassingQuiet(bm, t, s, g, ids, d);
    CompleteSets(bm, t, s, s, g, ids, d, -1);
    forall id | id in ids
      ensures bm.Manages(id)
    {
      assert id in SetOf(ids);
      var x :| x in g.m && g.m[x] == id;
    }
  }

  lemma ReadyAfter(bm: Area, s: seq<Block>, s1: seq<Block>, g: Cutting, ids: seq<int>, inode: int)
    requires bm.Fits(s) && g.m1.Values <= Used(bm, s) && SameBitmapArea(bm, s, g.s0)
    requires |s1| == |s| && inode < bm.start && forall b | 0 <= b < |s| && b != inode :: s1[b] == s[b]
    ensures bm.Fits(s1) && g.m1.Values <= Used(bm, s1) && SameBitmapArea(bm, s1, g.s0)
  {}

  lemma StrayKept(bm: Area, s: seq<Block>, s1: seq<Block>, s2: seq<Block>, g: Cutting, from: int, inode: int)
    requires |s1| == |s| && g.extra < bm.start && forall b | 0 <= b < |s| && b != inode :: s1[b] == s[b]
    requires SameOutside(bm, s1, s2)
    ensures 0 <= g.extra != inode && Clobbered(s, g, g.extra, from) ==> ClobberedBy(s2, g.m, g.extra, from)
  {}
}
