/** The block tree of a file as a value: which positions a file of n data blocks
    has, where the pointer of each position is stored, and what a change of one
    pointer does to all others. */
module Tree {
  import opened Blocks

  const DIRECT: nat := 23
  const SINGLE: nat := 1047         // DIRECT + WORDS
  const MAX_BLOCKS: nat := 1049623  // DIRECT + WORDS + WORDS * WORDS

  /** The pointers kept in the inode itself. */
  datatype Root = Root(direct: seq<Word>, indirect1: Word, indirect2: Word)

  /** A position in the tree: a data block, or one of the index blocks. */
  datatype Node = Data(i: nat) | Ind1 | Ind2 | Second(b: nat)

  /** The number of second-level index blocks of a file of n data blocks. */
  ghost function Seconds(n: nat): nat {
    if n <= SINGLE then 0 else (n - SINGLE + WORDS - 1) / WORDS
  }

  /** A tree shape, possibly half grown: d data blocks, and which index blocks. */
  ghost predicate Stage(x: Node, d: nat, i1: bool, i2: bool, sec: nat) {
    match x
    case Data(i) => i < d
    case Ind1 => i1
    case Ind2 => i2
    case Second(b) => b < sec
  }

  /** The positions of a file of n data blocks. */
  ghost predicate InTree(x: Node, n: nat) {
    Stage(x, n, n > DIRECT, n > SINGLE, Seconds(n))
  }

  ghost predicate IsRoot(x: Node) {
    x.Ind1? || x.Ind2? || (x.Data? && x.i < DIRECT)
  }

  /** The index block that holds the pointer of x, and the entry in it. */
  ghost function Parent(x: Node): Node
    requires !IsRoot(x)
  {
    match x
    case Data(i) => if i < SINGLE then Ind1 else Second((i - SINGLE) / WORDS)
    case Second(b) => Ind2
  }

  ghost function EntryIndex(x: Node): nat
    requires !IsRoot(x)
  {
    match x
    case Data(i) => if i < SINGLE then i - DIRECT else (i - SINGLE) % WORDS
    case Second(b) => b
  }

  lemma EntryInjective(x: Node, y: Node)
    requires !IsRoot(x) && !IsRoot(y) && Parent(x) == Parent(y) && EntryIndex(x) == EntryIndex(y)
    ensures x == y
  {}

  ghost function RootPointer(t: Root, x: Node): nat
    requires IsRoot(x) && |t.direct| == DIRECT
  {
    match x
    case Data(i) => t.direct[i]
    case Ind1 => t.indirect1
    case Ind2 => t.indirect2
  }

  /** The pointer of x is m[x]. */
  ghost predicate Points(t: Root, s: seq<Block>, m: map<Node, int>, x: Node)
    requires x in m && |t.direct| == DIRECT
  {
    if IsRoot(x) then RootPointer(t, x) == m[x]
    else
      && Parent(x) in m && 0 <= m[Parent(x)] < |s|
      && EntryIndex(x) < WORDS
      && GetWord(s[m[Parent(x)]], EntryIndex(x)) == m[x]
  }

  ghost predicate Injective(m: map<Node, int>) {
    forall x, y | x in m && y in m && x != y :: m[x] != m[y]
  }

  ghost predicate Within(m: map<Node, int>, lo: int, hi: int) {
    forall x | x in m :: lo <= m[x] < hi
  }

  /** The pointers in the inode and on the device describe exactly the tree m, whose
      blocks are distinct and lie in the data area. */
  ghost predicate Rep(t: Root, s: seq<Block>, m: map<Node, int>, lo: int, hi: int) {
    && |t.direct| == DIRECT
    && 0 <= lo && hi <= |s|
    && Within(m, lo, hi)
    && Injective(m)
    && forall x | x in m :: Points(t, s, m, x)
  }

  /** Part of a tree that contains the index blocks of all its members. */
  ghost predicate ClosedPart(m1: map<Node, int>, m: map<Node, int>) {
    forall x | x in m1 :: x in m && m1[x] == m[x] && (!IsRoot(x) ==> Parent(x) in m1)
  }

  lemma RepPart(t: Root, s: seq<Block>, m: map<Node, int>, m1: map<Node, int>, lo: int, hi: int)
    requires Rep(t, s, m, lo, hi) && ClosedPart(m1, m)
    ensures Rep(t, s, m1, lo, hi)
  {}

  /** Only the index blocks of the tree matter to it. */
  lemma RepFrame(t: Root, s: seq<Block>, s': seq<Block>, m: map<Node, int>, lo: int, hi: int)
    requires Rep(t, s, m, lo, hi) && |s'| == |s|
    requires forall x | x in m && !x.Data? :: s'[m[x]] == s[m[x]]
    ensures Rep(t, s', m, lo, hi)
  {
    forall x | x in m
      ensures Points(t, s', m, x)
    {
      assert Points(t, s, m, x);
      if !IsRoot(x) { assert !Parent(x).Data?; }
    }
  }

  /** Overwriting an index entry that belongs to no position of the tree. */
  lemma RepOverwrite(t: Root, s: seq<Block>, m: map<Node, int>, lo: int, hi: int, p: Node, k: nat, w: Word)
    requires Rep(t, s, m, lo, hi) && p in m && k < WORDS
    requires forall x | x in m && !IsRoot(x) :: !(Parent(x) == p && EntryIndex(x) == k)
    ensures Rep(t, s[m[p] := SetWord(s[m[p]], k, w)], m, lo, hi)
  {
    hide GetWord, SetWord;
    var s' := s[m[p] := SetWord(s[m[p]], k, w)];
    SetWordGetAll(s[m[p]], k, w);
    forall x | x in m
      ensures Points(t, s', m, x)
    {
      assert Points(t, s, m, x);
    }
  }

  /** A new position whose pointer is stored in an index block of the tree. */
  lemma RepChild(t: Root, s: seq<Block>, m: map<Node, int>, lo: int, hi: int, x: Node, id: Word)
    requires Rep(t, s, m, lo, hi) && x !in m && !IsRoot(x) && Parent(x) in m && EntryIndex(x) < WORDS
    requires lo <= id < hi && id !in m.Values
    ensures Rep(t, s[m[Parent(x)] := SetWord(s[m[Parent(x)]], EntryIndex(x), id)], m[x := id], lo, hi)
  {
    hide GetWord, SetWord;
    var p, k := Parent(x), EntryIndex(x);
    forall y | y in m && !IsRoot(y)
      ensures !(Parent(y) == p && EntryIndex(y) == k)
    {
      if Parent(y) == p && EntryIndex(y) == k { EntryInjective(x, y); }
    }
    RepOverwrite(t, s, m, lo, hi, p, k, id);
    SetWordGet(s[m[p]], k, id, k);
    RepInsert(t, s[m[p] := SetWord(s[m[p]], k, id)], m, lo, hi, x, id);
  }

  /** A new position whose pointer is stored in the inode. */
  lemma RepRoot(t: Root, t': Root, s: seq<Block>, m: map<Node, int>, lo: int, hi: int, x: Node, id: Word)
    requires Rep(t, s, m, lo, hi) && x !in m && IsRoot(x)
    requires lo <= id < hi && id !in m.Values
    requires t' == match x
      case Data(i) => t.(direct := t.direct[i := id])
      case Ind1 => t.(indirect1 := id)
      case Ind2 => t.(indirect2 := id)
    ensures Rep(t', s, m[x := id], lo, hi)
  {
    forall y | y in m
      ensures Points(t', s, m, y)
    {
      assert Points(t, s, m, y);
    }
    RepInsert(t', s, m, lo, hi, x, id);
  }

  lemma RepInsert(t: Root, s: seq<Block>, m: map<Node, int>, lo: int, hi: int, x: Node, id: Word)
    requires Rep(t, s, m, lo, hi) && x !in m && lo <= id < hi && id !in m.Values
    requires if IsRoot(x) then RootPointer(t, x) == id
      else Parent(x) in m && EntryIndex(x) < WORDS && GetWord(s[m[Parent(x)]], EntryIndex(x)) == id
    ensures Rep(t, s, m[x := id], lo, hi)
  {}

  /** block_id: the walk from the inode to the block of a position. */
  ghost function Id(t: Root, s: seq<Block>, x: Node): int {
    match x
    case Ind1 => t.indirect1
    case Ind2 => t.indirect2
    case Second(b) => EntryOf(s, t.indirect2, b)
    case Data(i) =>
      if i < DIRECT then (if i < |t.direct| then t.direct[i] else 0)
      else if i < SINGLE then EntryOf(s, t.indirect1, i - DIRECT)
      else EntryOf(s, EntryOf(s, t.indirect2, (i - SINGLE) / WORDS), (i - SINGLE) % WORDS)
  }

  ghost function EntryOf(s: seq<Block>, b: int, k: nat): int {
    if 0 <= b < |s| && k < WORDS then GetWord(s[b], k) else 0
  }

  lemma RepId(t: Root, s: seq<Block>, m: map<Node, int>, lo: int, hi: int, x: Node)
    requires Rep(t, s, m, lo, hi) && x in m
    ensures Id(t, s, x) == m[x]
  {
    hide GetWord;
    assert Points(t, s, m, x);
    if !IsRoot(x) {
      var p := Parent(x);
      assert Points(t, s, m, p);
      if !IsRoot(p) { assert Points(t, s, m, Parent(p)); }
    }
  }

  /** The positions of a file of n data blocks, as a finite set. */
  ghost function Nodes(n: nat): (r: set<Node>)
    ensures forall x :: x in r <==> InTree(x, n)
  {
    (set i | 0 <= i < n :: Data(i)) + (set b | 0 <= b < Seconds(n) :: Second(b))
    + (if n > DIRECT then {Ind1} else {}) + (if n > SINGLE then {Ind2} else {})
  }

  /** The tree of a file of n data blocks, read off the inode and the device. */
  ghost function TreeOf(t: Root, s: seq<Block>, n: nat): map<Node, int> {
    map x | x in Nodes(n) :: Id(t, s, x)
  }

  ghost predicate WellFormed(t: Root, s: seq<Block>, n: nat, lo: int, hi: int) {
    n <= MAX_BLOCKS && Rep(t, s, TreeOf(t, s, n), lo, hi)
  }

  /** There is only one tree with the right positions. */
  lemma RepTree(t: Root, s: seq<Block>, m: map<Node, int>, n: nat, lo: int, hi: int)
    requires Rep(t, s, m, lo, hi) && n <= MAX_BLOCKS
    requires forall x :: x in m <==> InTree(x, n)
    ensures WellFormed(t, s, n, lo, hi) && TreeOf(t, s, n) == m
  {
    forall x | x in m
      ensures Id(t, s, x) == m[x]
    {
      RepId(t, s, m, lo, hi, x);
    }
    assert TreeOf(t, s, n) == m;
  }
}
