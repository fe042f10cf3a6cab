/** The path cache: an ordered map from path prefixes to inodes, with a clock hand. */
module PathCache {
  import opened Blocks
  import opened Paths
  import opened Wrappers

  const U64_: nat := 0x1_0000_0000_0000_0000
  const KEY_COST: nat := 56         // sizeof key and value, besides the text of the key

  datatype Item = Item(key: Str, inode: Word, visited: bool)

  /** The order of std::string. */
  predicate Less(a: Str, b: Str) {
    if |b| == 0 then false
    else if |a| == 0 then true
    else a[0] < b[0] || (a[0] == b[0] && Less(a[1..], b[1..]))
  }

  /** At the first difference the smaller byte decides, and a proper prefix is less. */
  lemma LessIs(a: Str, b: Str)
    ensures Less(a, b) <==>
      a < b || exists k: nat {:trigger a[..k]} :: k < |a| && k < |b| && a[..k] == b[..k] && a[k] < b[k]
  {
    hide Less;
    LessDiffers(a, b);
    if k: nat :| k < |a| && k < |b| && a[..k] == b[..k] && a[k] < b[k] { assert Smaller(a, b, k); }
    if k: nat :| Smaller(a, b, k) { assert a[..k] == b[..k]; }
  }

  ghost predicate Smaller(a: Str, b: Str, k: nat) {
    k < |a| && k < |b| && a[..k] == b[..k] && a[k] < b[k]
  }

  lemma {:induction false} LessDiffers(a: Str, b: Str)
    ensures Less(a, b) <==> a < b || exists k: nat :: Smaller(a, b, k)
  {
    if |a| > 0 && |b| > 0 && a[0] == b[0] {
      var u, v := a[1..], b[1..];
      LessDiffers(u, v);
      assert a == [a[0]] + u && b == [a[0]] + v;
      if k: nat :| Smaller(u, v, k) { SmallerNext(a[0], u, v, k); }
      if k: nat :| Smaller(a, b, k) { SmallerNext(a[0], u, v, k - 1); }
    } else if |a| > 0 && |b| > 0 && a[0] < b[0] {
      assert Smaller(a, b, 0);
    }
  }

  lemma SmallerNext(x: byte, u: Str, v: Str, k: nat)
    ensures Smaller([x] + u, [x] + v, k + 1) <==> Smaller(u, v, k)
  {
    var a, b := [x] + u, [x] + v;
    if k < |u| && k < |v| {
      assert a[..k + 1] == [x] + u[..k] && b[..k + 1] == [x] + v[..k];
      assert a[..k + 1][1..] == u[..k] && b[..k + 1][1..] == v[..k];
    }
  }

  lemma {:induction false} LessTrans(a: Str, b: Str, c: Str)
    requires Less(a, b) && Less(b, c)
    ensures Less(a, c)
  {
    if |a| > 0 && a[0] == b[0] == c[0] { LessTrans(a[1..], b[1..], c[1..]); }
  }

  lemma {:induction false} LessTotal(a: Str, b: Str)
    ensures Less(a, b) || a == b || Less(b, a)
    ensures !(Less(a, b) && Less(b, a)) && !Less(a, a)
  {
    if |a| > 0 && |b| > 0 {
      LessTotal(a[1..], b[1..]);
      if a[0] == b[0] && a[1..] == b[1..] {
        assert a == [a[0]] + a[1..] && b == [b[0]] + b[1..];
      }
    }
    if |a| > 0 { LessIrreflexive(a); }
  }

  lemma {:induction false} LessIrreflexive(a: Str)
    ensures !Less(a, a)
  {
    if |a| > 0 { LessIrreflexive(a[1..]); }
  }

  /** A key that has p as a prefix is not before p. */
  lemma {:induction false} PrefixNotLess(p: Str, k: Str)
    requires p <= k
    ensures !Less(k, p)
  {
    if |p| > 0 {
      assert p[1..] <= k[1..];
      PrefixNotLess(p[1..], k[1..]);
    }
  }

  ghost predicate Sorted(items: seq<Item>) {
    forall i, j | 0 <= i < j < |items| :: Less(items[i].key, items[j].key)
  }

  /** What the cache knows. */
  ghost function Pairs(items: seq<Item>): set<(Str, Word)> {
    set it | it in items :: (it.key, it.inode)
  }

  ghost function Cost(items: seq<Item>): nat {
    if items == [] then 0 else Cost(items[1..]) + |items[0].key| + KEY_COST
  }

  lemma {:induction false} CostErase(items: seq<Item>, k: nat)
    requires k < |items|
    ensures Cost(items) == Cost(items[..k] + items[k + 1..]) + |items[k].key| + KEY_COST
  {
    var r := items[..k] + items[k + 1..];
    if k > 0 {
      var rest := items[1..];
      CostErase(rest, k - 1);
      assert r[0] == items[0] && r[1..] == rest[..k - 1] + rest[k - 1 + 1..] && rest[k - 1] == items[k];
    } else {
      assert r == items[1..];
    }
  }

  lemma {:induction false} CostMarks(a: seq<Item>, b: seq<Item>)
    requires |a| == |b| && forall i | 0 <= i < |a| :: a[i].key == b[i].key
    ensures Cost(a) == Cost(b)
  {
    if a != [] { CostMarks(a[1..], b[1..]); }
  }

  lemma PairsErase(items: seq<Item>, k: nat)
    requires k < |items| && Sorted(items)
    ensures Sorted(items[..k] + items[k + 1..])
    ensures Pairs(items[..k] + items[k + 1..]) == Pairs(items) - {(items[k].key, items[k].inode)}
  {
    var r := items[..k] + items[k + 1..];
    forall i | 0 <= i < |r|
      ensures r[i] == items[if i < k then i else i + 1]
    {}
    forall i | 0 <= i < |items| && i != k
      ensures items[i].key != items[k].key && items[i] in r
    {
      LessTotal(items[i].key, items[k].key);
      assert r[if i < k then i else i - 1] == items[i];
    }
    forall x
      ensures x in Pairs(r) <==> x in Pairs(items) && x != (items[k].key, items[k].inode)
    {
      if x in Pairs(r) {
        var i :| 0 <= i < |r| && (r[i].key, r[i].inode) == x;
        assert items[if i < k then i else i + 1] in items;
      }
      if x in Pairs(items) && x != (items[k].key, items[k].inode) {
        var i :| 0 <= i < |items| && (items[i].key, items[i].inode) == x;
        assert i != k;
      }
    }
  }

  lemma PairsMarks(a: seq<Item>, b: seq<Item>)
    requires |a| == |b| && forall i | 0 <= i < |a| :: a[i].key == b[i].key && a[i].inode == b[i].inode
    ensures Pairs(a) == Pairs(b) && (Sorted(a) ==> Sorted(b))
  {}

  /** d steps of the hand from h, round a ring of n entries. */
  function Ring(h: nat, d: nat, n: nat): nat
    requires h < n && d <= n
  {
    if h + d < n then h + d else h + d - n
  }

  /** The first entry from the hand on that has no mark, d steps on; if all have one,
      the entry at the hand, after a full round. */
  ghost predicate Victim(items: seq<Item>, h: nat, d: nat) {
    && h < |items| && d <= |items|
    && (forall j: nat | j < d :: items[Ring(h, j, |items|)].visited)
    && (d < |items| ==> !items[Ring(h, d, |items|)].visited)
  }

  /** The entries after the hand has passed d of them: those have lost their mark. */
  ghost predicate Passed(before: seq<Item>, after: seq<Item>, h: nat, d: nat) {
    && |after| == |before| && h < |before| && d <= |before|
    && (forall i | 0 <= i < |before| :: after[i].key == before[i].key && after[i].inode == before[i].inode)
    && (forall i | 0 <= i < |before| :: after[i].visited == (before[i].visited && !InSweep(i, h, d, |before|)))
  }

  /** The entries after the hand passed d of them, as a value. */
  ghost function MarksOff(items: seq<Item>, h: nat, d: nat): (r: seq<Item>)
    requires h < |items| && d <= |items|
    ensures Passed(items, r, h, d)
  {
    seq(|items|, i requires 0 <= i < |items| => items[i].(visited := items[i].visited && !InSweep(i, h, d, |items|)))
  }

  /** How far the next victim is. */
  ghost function Distance(items: seq<Item>, h: nat, d: nat): (r: nat)
    requires h < |items| && d <= |items| && forall j: nat | j < d :: items[Ring(h, j, |items|)].visited
    ensures Victim(items, h, r)
    decreases |items| - d
  {
    if d == |items| || !items[Ring(h, d, |items|)].visited then d else Distance(items, h, d + 1)
  }

  lemma VictimIs(items: seq<Item>, after: seq<Item>, h: nat, d: nat)
    requires Victim(items, h, d) && Passed(items, after, h, d)
    ensures d <= |items| && |after| == |items| && Ring(h, d, |items|) < |items|
    ensures d == Distance(items, h, 0) && after == MarksOff(items, h, d)
  {
    OneVictim(items, h, d, Distance(items, h, 0));
    assert after == MarksOff(items, h, d);
  }

  lemma OneVictim(items: seq<Item>, h: nat, d: nat, e: nat)
    requires Victim(items, h, d) && Victim(items, h, e)
    ensures d == e
  {}

  /** In positions: if all entries have a mark, the hand goes round once and takes all off;
      if not, it goes on to the first one without, at k, and takes off those on the way. */
  lemma VictimMeans(items: seq<Item>, after: seq<Item>, h: nat, d: nat, k: nat)
    requires Victim(items, h, d) && Passed(items, after, h, d) && k == Ring(h, d, |items|)
    ensures h < |items| == |after| && k < |items|
    ensures (forall i | 0 <= i < |items| :: items[i].visited) ==>
      k == h && forall i | 0 <= i < |items| :: after[i] == items[i].(visited := false)
    ensures !(forall i | 0 <= i < |items| :: items[i].visited) ==>
      && !items[k].visited
      && forall i | 0 <= i < |items| ::
           var passed := if h <= k then h <= i < k else h <= i || i < k;
           (passed ==> items[i].visited) && after[i] == items[i].(visited := items[i].visited && !passed)
  {
    var n := |items|;
    forall i | 0 <= i < n
      ensures InSweep(i, h, d, n) ==> items[i].visited
    {
      var j := if i >= h then i - h else i - h + n;
      assert Ring(h, j, n) == i;
    }
    assert d < n ==> !items[k].visited;
  }

  datatype Sweep = Sweep(items: seq<Item>, hand: nat, freed: nat)

  /** One victim after the other, until enough is freed or nothing is left. */
  ghost function Swept(w: Sweep, size: nat): (r: Sweep)
    requires w.hand <= |w.items|
    ensures r.freed >= size || r.items == []
    ensures r.freed + Cost(r.items) == w.freed + Cost(w.items) && r.hand <= |r.items|
    decreases |w.items|
  {
    if w.freed >= size || w.items == [] then w
    else
      var n := Next(w);
      Swept(n, size)
  }

  /** The next victim is erased. */
  ghost function Next(w: Sweep): (r: Sweep)
    requires w.hand <= |w.items| && w.items != []
    ensures |r.items| == |w.items| - 1 && r.hand <= |r.items|
    ensures r.freed + Cost(r.items) == w.freed + Cost(w.items) && r.freed > w.freed
  {
    var h := if w.hand == |w.items| then 0 else w.hand;
    var d := Distance(w.items, h, 0);
    var items, k := MarksOff(w.items, h, d), Ring(h, d, |w.items|);
    CostMarks(w.items, items);
    CostErase(items, k);
    Sweep(items[..k] + items[k + 1..], k, w.freed + |items[k].key| + KEY_COST)
  }

  lemma SweptNext(w: Sweep, size: nat)
    requires w.hand <= |w.items|
    ensures Swept(w, size) == if w.freed >= size || w.items == [] then w else Swept(Next(w), size)
  {}

  lemma NextIs(w: Sweep, after: seq<Item>, h: nat, d: nat)
    requires w.hand <= |w.items| && w.items != [] && h == (if w.hand == |w.items| then 0 else w.hand)
    requires d == Distance(w.items, h, 0) && d <= |w.items| && after == MarksOff(w.items, h, d)
    ensures var k := Ring(h, d, |w.items|);
      Next(w) == Sweep(after[..k] + after[k + 1..], k, w.freed + |after[k].key| + KEY_COST)
  {}

  /** One step of a sweep: the victim is erased, the hand is on what followed it, and the
      bytes of its key and 56 more are counted. */
  lemma NextMeans(w: Sweep) returns (k: nat, after: seq<Item>)
    requires w.hand <= |w.items| && w.items != []
    ensures k < |w.items| == |after|
    ensures Next(w) == Sweep(after[..k] + after[k + 1..], k, w.freed + |w.items[k].key| + 56)
    ensures var h := if w.hand == |w.items| then 0 else w.hand;
      if forall i | 0 <= i < |w.items| :: w.items[i].visited
      then k == h && forall i | 0 <= i < |w.items| :: after[i] == w.items[i].(visited := false)
      else
        && !w.items[k].visited
        && forall i | 0 <= i < |w.items| ::
             var passed := if h <= k then h <= i < k else h <= i || i < k;
             (passed ==> w.items[i].visited) && after[i] == w.items[i].(visited := w.items[i].visited && !passed)
  {
    hide MarksOff, Victim, Passed, InSweep, Distance;
    var h := if w.hand == |w.items| then 0 else w.hand;
    var d := Distance(w.items, h, 0);
    VictimRange(w.items, h, d);
    k, after := Ring(h, d, |w.items|), MarksOff(w.items, h, d);
    VictimMeans(w.items, after, h, d, k);
    NextIs(w, after, h, d);
  }

  lemma VictimRange(items: seq<Item>, h: nat, d: nat)
    requires Victim(items, h, d)
    ensures d <= |items|
  {}

  /** No more is freed than the last victim brings beyond what was asked for. */
  lemma {:induction false} SweptEnough(w: Sweep, size: nat, most: nat)
    requires w.hand <= |w.items| && w.freed < size + most && forall it | it in w.items :: |it.key| + KEY_COST <= most
    ensures Swept(w, size).freed < size + most
    decreases |w.items|
  {
    if !(w.freed >= size || w.items == []) {
      var n := Next(w);
      NextKeys(w);
      var h := if w.hand == |w.items| then 0 else w.hand;
      var k := Ring(h, Distance(w.items, h, 0), |w.items|);
      assert w.items[k] in w.items && n.freed == w.freed + |w.items[k].key| + KEY_COST;
      SweptEnough(n, size, most);
    }
  }

  lemma NextKeys(w: Sweep)
    requires w.hand <= |w.items| && w.items != []
    ensures forall it | it in Next(w).items :: exists jt :: jt in w.items && jt.key == it.key
  {}

  /** The entries after a key was stored; order settles where they are. */
  ghost predicate StoredIn(before: seq<Item>, after: seq<Item>, key: Str, inode: Word) {
    Sorted(after) && forall it :: it in after <==> it == Item(key, inode, true) || (it in before && it.key != key)
  }

  lemma StoredPairs(before: seq<Item>, after: seq<Item>, key: Str, inode: Word)
    requires StoredIn(before, after, key, inode)
    ensures Pairs(after) == (set p | p in Pairs(before) && p.0 != key) + {(key, inode)}
  {
    assert Item(key, inode, true) in after;
  }

  lemma StoredAlone(after: seq<Item>, key: Str, inode: Word)
    requires StoredIn([], after, key, inode)
    ensures after == [Item(key, inode, true)]
  {
    assert Item(key, inode, true) in after;
    assert forall j | 0 <= j < |after| :: after[j] in after;
    if |after| > 1 { LessTotal(after[0].key, after[1].key); }
  }

  /** Position i is among the d positions from h on, round the ring. */
  predicate InSweep(i: nat, h: nat, d: nat, n: nat)
    requires h < n && d <= n
  {
    if h + d <= n then h <= i < h + d else h <= i < n || i < h + d - n
  }

  /** One step of the hand takes the mark of the entry it leaves. */
  lemma HandStep(before: seq<Item>, items: seq<Item>, h: nat, d: nat)
    requires Passed(before, items, h, d) && |items| > 0 && items[Ring(h, d, |items|)].visited
    ensures d < |items|
    ensures var k := Ring(h, d, |items|);
      && before[k].visited && Passed(before, items[k := items[k].(visited := false)], h, d + 1)
      && Ring(h, d + 1, |items|) == if k + 1 == |items| then 0 else k + 1
  {}

  lemma SameKeys(before: seq<Item>, items: seq<Item>, h: nat, d: nat)
    requires Passed(before, items, h, d)
    ensures |items| == |before|
    ensures forall i | 0 <= i < |before| :: items[i].key == before[i].key && items[i].inode == before[i].inode
  {}

  lemma NonePassed(items: seq<Item>, h: nat)
    requires h < |items|
    ensures Passed(items, items, h, 0) && Ring(h, 0, |items|) == h
  {}

  lemma Stopped(before: seq<Item>, items: seq<Item>, h: nat, d: nat)
    requires Passed(before, items, h, d) && !items[Ring(h, d, |items|)].visited
    requires forall j: nat | j < d :: before[Ring(h, j, |before|)].visited
    ensures Victim(before, h, d)
  {}

  lemma EraseStep(items: seq<Item>, k: nat)
    requires k < |items| && Sorted(items)
    ensures Sorted(items[..k] + items[k + 1..])
    ensures Pairs(items[..k] + items[k + 1..]) <= Pairs(items)
    ensures Cost(items[..k] + items[k + 1..]) + |items[k].key| + KEY_COST == Cost(items)
  {
    PairsErase(items, k);
    CostErase(items, k);
  }

  /** Storing a key in order: over an entry with the key, or in front of the first
      greater one. */
  lemma StoreStep(items: seq<Item>, i: nat, key: Str, inode: Word)
    requires Sorted(items) && LowerAt(items, i, key)
    ensures i < |items| && items[i].key == key ==> StoredIn(items, items[i := Item(key, inode, true)], key, inode)
    ensures !(i < |items| && items[i].key == key) ==>
      StoredIn(items, items[..i] + [Item(key, inode, true)] + items[i..], key, inode)
  {
    hide Less;
    KeysAround(items, i, key);
    var new0 := Item(key, inode, true);
    if i < |items| && items[i].key == key {
      var r := items[i := new0];
      assert forall j | 0 <= j < |items| :: r[j] == if j == i then new0 else items[j];
      assert r[i] in r;
      forall it | it in items && it.key != key
        ensures it in r
      {
        var j :| 0 <= j < |items| && items[j] == it;
        assert r[j] == it;
      }
    } else {
      var r := items[..i] + [new0] + items[i..];
      assert forall j | 0 <= j < |r| :: r[j] == if j < i then items[j] else if j == i then new0 else items[j - 1];
      assert r[i] in r;
      forall it | it in items
        ensures it in r
      {
        var j :| 0 <= j < |items| && items[j] == it;
        assert r[if j < i then j else j + 1] == it;
      }
    }
  }

  /** Where the lower bound of a key is. */
  ghost predicate LowerAt(items: seq<Item>, i: nat, key: Str) {
    i <= |items| && (forall j | 0 <= j < i :: Less(items[j].key, key)) &&
      (forall j | i <= j < |items| :: !Less(items[j].key, key))
  }

  /** Only the entry at the lower bound can have the key. */
  lemma KeysAround(items: seq<Item>, i: nat, key: Str)
    requires Sorted(items) && LowerAt(items, i, key)
    ensures forall j | 0 <= j < |items| && j != i :: items[j].key != key
    ensures forall j | i < j < |items| :: Less(key, items[j].key)
    ensures i < |items| && items[i].key != key ==> Less(key, items[i].key)
  {
    forall j | 0 <= j < |items|
      ensures j != i ==> items[j].key != key
      ensures j > i ==> Less(key, items[j].key)
      ensures j == i && items[j].key != key ==> Less(key, items[j].key)
    {
      LessTotal(items[j].key, key);
      if j > i { LessTotal(items[i].key, items[j].key); }
    }
  }

  class Clock {
    var items: seq<Item>      // path_cache_, in key order
    var hand: nat             // clock_iter_, |items| for end()
    var curSize: nat
    const maxSize: nat

    ghost predicate Valid()
      reads this
    {
      Sorted(items) && hand <= |items|
    }

    constructor (maxSize: nat)
      ensures Valid() && items == [] && this.maxSize == maxSize && curSize == 0
    {
      items, hand, curSize := [], 0, 0;
      this.maxSize := maxSize;
    }

    /** The hand moves to the next victim; marks on the way are taken off. */
    method Advance() returns (ghost d: nat)
      requires Valid() && hand < |items|
      modifies this`items, this`hand
      ensures Victim(old(items), old(hand), d) && Passed(old(items), items, old(hand), d)
      ensures hand == Ring(old(hand), d, |items|)
      ensures Valid() && Pairs(items) == Pairs(old(items)) && Cost(items) == Cost(old(items))
    {
      hide Passed, Victim, Sorted, Pairs, Cost;
      ghost var before, h := items, hand;
      NonePassed(items, hand);
      d := 0;
      while items[hand].visited
        invariant d <= |before| && |items| == |before| && hand == Ring(h, d, |before|)
        invariant Passed(before, items, h, d)
        invariant forall j: nat | j < d :: before[Ring(h, j, |before|)].visited
        decreases |before| - d
      {
        HandStep(before, items, h, d);
        items := items[hand := items[hand].(visited := false)];
        hand := if hand + 1 == |items| then 0 else hand + 1;
        d := d + 1;
      }
      Stopped(before, items, h, d);
      SameKeys(before, items, h, d);
      PairsMarks(before, items);
      CostMarks(before, items);
    }

    /** Erases entries until `size` bytes are gone or none is left. */
    method Evict(size: nat)
      requires Valid()
      modifies this
      ensures Valid() && Pairs(items) <= Pairs(old(items))
      ensures Sweep(items, hand, curSize) == Swept(Sweep(old(items), old(hand), 0), size)
    {
      hide Swept, Next, Pairs, Sorted, Victim, Passed;
      ghost var start := Sweep(items, hand, 0);
      var curSz: nat := 0;
      while curSz < size && |items| > 0
        invariant Valid() && Pairs(items) <= Pairs(old(items))
        invariant Swept(Sweep(items, hand, curSz), size) == Swept(start, size)
        decreases |items|
      {
        ghost var w := Sweep(items, hand, curSz);
        SweptNext(w, size);
        if hand == |items| {
          hand := 0;
        }
        ghost var h := hand;
        ghost var d := Advance();
        VictimIs(w.items, items, h, d);
        EraseStep(items, hand);
        NextIs(w, items, h, d);
        curSz := curSz + |items[hand].key| + KEY_COST;
        items := items[..hand] + items[hand + 1..];
      }
      SweptNext(Sweep(items, hand, curSz), size);
      curSize := curSz;
    }

    /** The first position whose key is not before the given one. */
    method LowerBound(key: Str) returns (i: nat)
      requires Valid()
      ensures LowerAt(items, i, key)
    {
      i := 0;
      while i < |items| && Less(items[i].key, key)
        invariant i <= |items| && forall j | 0 <= j < i :: Less(items[j].key, key)
      {
        i := i + 1;
      }
      forall j | i <= j < |items|
        ensures !Less(items[j].key, key)
      {
        if j > i && Less(items[j].key, key) {
          LessTrans(items[i].key, items[j].key, key);
        }
      }
    }

    /** path_cache_.find; an entry that is found is marked. */
    method Find(key: Str) returns (r: Option<Word>)
      requires Valid()
      modifies this`items
      ensures Valid() && Pairs(items) == Pairs(old(items))
      ensures r.None? ==> items == old(items) && forall it | it in items :: it.key != key
      ensures r.Some? ==> StoredIn(old(items), items, key, r.value) && (key, r.value) in Pairs(old(items))
      ensures r.Some? ==> exists it :: it in old(items) && it.key == key && it.inode == r.value
      ensures r.Some? ==>
        forall it :: it in items <==> it == Item(key, r.value, true) || (it in old(items) && it.key != key)
    {
      var i := LowerBound(key);
      KeysAround(items, i, key);
      if i < |items| && items[i].key == key {
        ghost var before := items;
        StoreStep(items, i, key, items[i].inode);
        assert items[i] in items;
        items := items[i := items[i].(visited := true)];
        PairsMarks(before, items);
        r := Some(items[i].inode);
      } else {
        r := None;
      }
    }

    /** path_cache_[key] = { inode, true }; the hand stays on its entry. */
    method Store(key: Str, inode: Word)
      requires Valid()
      modifies this`items, this`hand
      ensures Valid() && StoredIn(old(items), items, key, inode)
      ensures forall it :: it in items <==> it == Item(key, inode, true) || (it in old(items) && it.key != key)
      ensures old(hand) == |old(items)| ==> hand == |items|
      ensures old(hand) < |old(items)| ==> hand < |items| && items[hand].key == old(items)[old(hand)].key
    {
      var i := LowerBound(key);
      StoreStep(items, i, key, inode);
      if i < |items| && items[i].key == key {
        items := items[i := Item(key, inode, true)];
      } else {
        items := items[..i] + [Item(key, inode, true)] + items[i..];
        if hand >= i { hand := hand + 1; }
      }
    }

    /** Makes room and stores. The room asked for is computed in 64 bits without sign:
        below the limit it wraps round and asks for everything. */
    method Remember(key: Str, inode: Word)
      requires Valid()
      modifies this
      ensures Valid() && (key, inode) in Pairs(items) && Pairs(items) <= Pairs(old(items)) + {(key, inode)}
      ensures var e := (old(curSize) + |key| + 56 - maxSize) % 0x1_0000_0000_0000_0000;
        var w := if e > 0 then Swept(Sweep(old(items), old(hand), 0), e)
          else Sweep(old(items), old(hand), old(curSize));
        StoredIn(w.items, items, key, inode) && curSize == w.freed
      ensures old(curSize) + |key| + 56 < maxSize && Cost(old(items)) + maxSize <= 0x1_0000_0000_0000_0000 ==>
        items == [Item(key, inode, true)]
    {
      hide Swept, Cost;
      var increase := |key| + KEY_COST;
      var toEvict := (curSize + increase - maxSize) % U64_;
      if toEvict > 0 {
        Evict(toEvict);
      }
      ghost var kept := items;
      Store(key, inode);
      StoredPairs(kept, items, key, inode);
      if kept == [] { StoredAlone(items, key, inode); }
    }

    /** Erases the keys that have the path as a prefix, in one pass from the lower
        bound on. The hand moves off an erased entry to the next one. */
    method RemovePrefix(prefix: Str)
      requires Valid()
      modifies this`items, this`hand
      ensures Valid() && Pairs(items) == (set p | p in Pairs(old(items)) && !(prefix <= p.0))
      ensures forall it :: it in items <==> it in old(items) && !(prefix <= it.key)
      ensures old(hand) < |old(items)| && !(prefix <= old(items)[old(hand)].key) ==>
        hand < |items| && items[hand] == old(items)[old(hand)]
    {
      hide Pruned, Less, Sorted, Pairs;
      ghost var before := items;
      var it: nat := LowerBound(prefix);
      PruneStart(items, it, prefix);
      while it < |items|
        invariant hand <= |items| && Pruned(before, items, it, prefix)
        invariant old(hand) < |before| && !(prefix <= before[old(hand)].key) ==>
          hand < |items| && items[hand] == before[old(hand)]
        decreases |items| - it
      {
        PruneStep(before, items, it, prefix);
        if prefix <= items[it].key {
          items := items[..it] + items[it + 1..];
          if hand > it { hand := hand - 1; }
        } else {
          it := it + 1;
        }
      }
      PruneDone(before, items, it, prefix);
    }
  }

  /** The entries before position `it` do not have the prefix, and only entries that do
      have been erased. */
  ghost predicate Pruned(before: seq<Item>, items: seq<Item>, it: nat, prefix: Str) {
    && Sorted(items) && it <= |items|
    && (forall j | 0 <= j < it :: !(prefix <= items[j].key))
    && (forall x | x in items :: x in before)
    && (forall x | x in before && !(prefix <= x.key) :: x in items)
  }

  lemma PruneStart(items: seq<Item>, it: nat, prefix: Str)
    requires Sorted(items) && LowerAt(items, it, prefix)
    ensures Pruned(items, items, it, prefix)
  {
    forall j | 0 <= j < it
      ensures !(prefix <= items[j].key)
    {
      if prefix <= items[j].key { PrefixNotLess(prefix, items[j].key); }
    }
  }

  lemma PruneStep(before: seq<Item>, items: seq<Item>, it: nat, prefix: Str)
    requires Pruned(before, items, it, prefix) && it < |items|
    ensures if prefix <= items[it].key then Pruned(before, items[..it] + items[it + 1..], it, prefix)
      else Pruned(before, items, it + 1, prefix)
  {}

  lemma PruneDone(before: seq<Item>, items: seq<Item>, it: nat, prefix: Str)
    requires Pruned(before, items, it, prefix) && it >= |items|
    ensures Sorted(items) && forall x :: x in items <==> x in before && !(prefix <= x.key)
    ensures Pairs(items) == (set p | p in Pairs(before) && !(prefix <= p.0))
  {}
}
