/** The links of the block cache: an intrusive doubly linked list through the
    `prev` and `next` fields of the slots, and a free list through `next`. The
    slots' fields are kept as parallel sequences. The three functions are the
    link surgery of the cache manager as state transformers; the lemmas say what
    they do to the list they represent. */
module LruList {

  datatype Links = Links(prev: seq<int>, next: seq<int>, first: int, last: int)

  /** All links are slot numbers or -1: enough to follow any of them. */
  ghost predicate InRange(l: Links, n: nat) {
    && |l.prev| == n
    && |l.next| == n
    && -1 <= l.first < n
    && -1 <= l.last < n
    && (forall s | 0 <= s < n :: -1 <= l.prev[s] < n)
    && (forall s | 0 <= s < n :: -1 <= l.next[s] < n)
  }

  /** A sequence of distinct slot numbers. */
  ghost predicate Slots(order: seq<int>, n: nat) {
    && (forall i | 0 <= i < |order| :: 0 <= order[i] < n)
    && (forall i, j | 0 <= i < j < |order| :: order[i] != order[j])
  }

  ghost function After(order: seq<int>, i: int): int
    requires 0 <= i < |order|
  {
    if i == |order| - 1 then -1 else order[i + 1]
  }

  ghost function Before(order: seq<int>, i: int): int
    requires 0 <= i < |order|
  {
    if i == 0 then -1 else order[i - 1]
  }

  /** Following `next` from any slot of `order` gives the slot after it. */
  ghost predicate Forward(next: seq<int>, order: seq<int>)
    requires Slots(order, |next|)
  {
    forall i {:trigger next[order[i]]} | 0 <= i < |order| :: next[order[i]] == After(order, i)
  }

  ghost predicate Backward(prev: seq<int>, order: seq<int>)
    requires Slots(order, |prev|)
  {
    forall i {:trigger prev[order[i]]} | 0 <= i < |order| :: prev[order[i]] == Before(order, i)
  }

  /** The list from `first` along `next` is exactly `order`, `prev` mirrors `next`,
      and `last` is its other end. */
  ghost predicate Chain(l: Links, n: nat, order: seq<int>)
    requires InRange(l, n)
  {
    && Slots(order, n)
    && l.first == (if |order| == 0 then -1 else order[0])
    && l.last == (if |order| == 0 then -1 else order[|order| - 1])
    && Forward(l.next, order)
    && Backward(l.prev, order)
  }

  /** The free list: only `next` is meaningful. */
  ghost predicate FreeChain(next: seq<int>, first: int, free: seq<int>) {
    && Slots(free, |next|)
    && first == (if |free| == 0 then -1 else free[0])
    && Forward(next, free)
  }

  /** LRU_add: the slot becomes the head of the list. */
  ghost function Pushed(l: Links, n: nat, slot: int): (r: Links)
    requires InRange(l, n) && 0 <= slot < n
    ensures InRange(r, n) && r.last != -1
  {
    var prev := l.prev[slot := -1];
    Links(if l.first != -1 then prev[l.first := slot] else prev, l.next[slot := l.first], slot,
          if l.last == -1 then slot else l.last)
  }

  /** LRU_remove: the neighbours of the slot are joined and its links cleared. */
  ghost function Unlinked(l: Links, size: nat, slot: int): (r: Links)
    requires InRange(l, size) && 0 <= slot < size
    ensures InRange(r, size)
  {
    var p, n := l.prev[slot], l.next[slot];
    Links((if n != -1 then l.prev[n := p] else l.prev)[slot := -1],
          (if p != -1 then l.next[p := n] else l.next)[slot := -1],
          if slot == l.first then n else l.first,
          if slot == l.last then p else l.last)
  }

  /** BlockStatus::init, as far as the links are concerned. */
  ghost function Cleared(l: Links, n: nat, slot: int): (r: Links)
    requires InRange(l, n) && 0 <= slot < n
    ensures InRange(r, n)
  {
    l.(prev := l.prev[slot := -1], next := l.next[slot := -1])
  }

  ghost function RemoveAt<T>(s: seq<T>, k: nat): (r: seq<T>)
    requires k < |s|
    ensures |r| == |s| - 1
    ensures forall i {:trigger r[i]} | 0 <= i < |r| :: r[i] == s[if i < k then i else i + 1]
    ensures forall x {:trigger x in r} :: x in r ==> x in s
  {
    s[..k] + s[k + 1..]
  }

  lemma RemoveAtSlots(order: seq<int>, n: nat, k: nat)
    requires Slots(order, n) && k < |order|
    ensures Slots(RemoveAt(order, k), n)
    ensures forall x :: x in RemoveAt(order, k) <==> x in order && x != order[k]
  {}

  lemma UnlinkForward(next: seq<int>, order: seq<int>, k: nat, next': seq<int>)
    requires Slots(order, |next|) && Forward(next, order) && k < |order|
    requires next' == (if k > 0 then next[order[k - 1] := After(order, k)] else next)[order[k] := -1]
    ensures Slots(RemoveAt(order, k), |next|) && Forward(next', RemoveAt(order, k))
  {
    hide RemoveAt;
    RemoveAtSlots(order, |next|, k);
    var o := RemoveAt(order, k);
    forall i | 0 <= i < |o|
      ensures next'[o[i]] == After(o, i)
    {
      var j := if i < k then i else i + 1;
      assert o[i] == order[j];
      assert next[order[j]] == After(order, j);
    }
  }

  lemma UnlinkBackward(prev: seq<int>, order: seq<int>, k: nat, prev': seq<int>)
    requires Slots(order, |prev|) && Backward(prev, order) && k < |order|
    requires prev' == (if k < |order| - 1 then prev[order[k + 1] := Before(order, k)] else prev)[order[k] := -1]
    ensures Slots(RemoveAt(order, k), |prev|) && Backward(prev', RemoveAt(order, k))
  {
    hide RemoveAt;
    RemoveAtSlots(order, |prev|, k);
    var o := RemoveAt(order, k);
    forall i | 0 <= i < |o|
      ensures prev'[o[i]] == Before(o, i)
    {
      var j := if i < k then i else i + 1;
      assert o[i] == order[j];
      assert prev[order[j]] == Before(order, j);
    }
  }

  /** Unlinking the k-th slot takes it out of the list and touches no other. */
  lemma UnlinkedChain(l: Links, n: nat, order: seq<int>, k: nat)
    requires InRange(l, n) && Chain(l, n, order) && k < |order|
    ensures Chain(Unlinked(l, n, order[k]), n, RemoveAt(order, k))
    ensures forall s | 0 <= s < n && s !in order :: Unlinked(l, n, order[k]).next[s] == l.next[s]
  {
    hide RemoveAt, Backward, Forward;
    var r, s := Unlinked(l, n, order[k]), order[k];
    assert l.next[s] == After(order, k) && l.prev[s] == Before(order, k) by { Neighbours(l, n, order, k); }
    assert r.prev == (if k < |order| - 1 then l.prev[order[k + 1] := Before(order, k)] else l.prev)[s := -1];
    assert r.next == (if k > 0 then l.next[order[k - 1] := After(order, k)] else l.next)[s := -1];
    UnlinkForward(l.next, order, k, r.next);
    UnlinkBackward(l.prev, order, k, r.prev);
  }

  lemma Neighbours(l: Links, n: nat, order: seq<int>, k: nat)
    requires InRange(l, n) && Chain(l, n, order) && k < |order|
    ensures l.next[order[k]] == After(order, k) && l.prev[order[k]] == Before(order, k)
  {}

  lemma PushForward(next: seq<int>, order: seq<int>, slot: int)
    requires Slots(order, |next|) && Forward(next, order) && 0 <= slot < |next| && slot !in order
    ensures Slots([slot] + order, |next|)
    ensures Forward(next[slot := if |order| == 0 then -1 else order[0]], [slot] + order)
  {}

  lemma PushBackward(prev: seq<int>, order: seq<int>, slot: int, prev': seq<int>)
    requires Slots(order, |prev|) && Backward(prev, order) && 0 <= slot < |prev| && slot !in order
    requires prev' == if |order| == 0 then prev[slot := -1] else prev[slot := -1][order[0] := slot]
    ensures Slots([slot] + order, |prev|) && Backward(prev', [slot] + order)
  {}

  /** Pushing an unlisted slot puts it at the head. */
  lemma PushedChain(l: Links, n: nat, order: seq<int>, slot: int)
    requires InRange(l, n) && Chain(l, n, order) && 0 <= slot < n && slot !in order
    ensures Chain(Pushed(l, n, slot), n, [slot] + order)
    ensures forall s | 0 <= s < n && s != slot :: Pushed(l, n, slot).next[s] == l.next[s]
  {
    hide Backward, Forward;
    PushForward(l.next, order, slot);
    PushBackward(l.prev, order, slot, Pushed(l, n, slot).prev);
  }

  /** Eviction of the last slot. In the source the slot is cleared first and
      unlinked afterwards, so its neighbour is never told. */
  ghost function Evicted(l: Links, n: nat, slot: int, unlinkFirst: bool): (r: Links)
    requires InRange(l, n) && 0 <= slot < n
    ensures InRange(r, n) && r.last != -1
  {
    var cleared :=
      if unlinkFirst then Cleared(Unlinked(l, n, slot), n, slot) else Unlinked(Cleared(l, n, slot), n, slot);
    Pushed(cleared, n, slot)
  }

  /** Unlinking before clearing keeps a list, with the victim moved to the head. */
  lemma EvictedUnlinkFirst(l: Links, n: nat, order: seq<int>)
    requires InRange(l, n) && Chain(l, n, order) && |order| > 0
    ensures Chain(Evicted(l, n, l.last, true), n, [l.last] + RemoveAt(order, |order| - 1))
  {
    hide Backward, Forward, Pushed, Chain;
    LastIs(l, n, order);
    UnlinkedChain(l, n, order, |order| - 1);
    RemoveAtSlots(order, n, |order| - 1);
    var u, rest := Unlinked(l, n, l.last), RemoveAt(order, |order| - 1);
    ClearUnlisted(u, n, rest, l.last);
    PushedChain(Cleared(u, n, l.last), n, rest, l.last);
  }

  lemma LastIs(l: Links, n: nat, order: seq<int>)
    requires InRange(l, n) && Chain(l, n, order) && |order| > 0
    ensures Slots(order, n) && l.last == order[|order| - 1] && 0 <= l.last < n
  {}

  lemma TailHasNoNext(l: Links, n: nat, order: seq<int>)
    requires InRange(l, n) && Chain(l, n, order)
    ensures l.last != -1 ==> l.next[l.last] == -1
  {}

  lemma ClearUnlisted(l: Links, n: nat, order: seq<int>, slot: int)
    requires InRange(l, n) && Chain(l, n, order) && 0 <= slot < n && slot !in order
    ensures Chain(Cleared(l, n, slot), n, order)
  {}

  /** A victim that is alone is moved onto itself, in either order. */
  lemma EvictedAlone(l: Links, n: nat, slot: int, unlinkFirst: bool)
    requires InRange(l, n) && Chain(l, n, [slot])
    ensures Chain(Evicted(l, n, slot, unlinkFirst), n, [slot])
  {}

  /** A slot from the free list is cleared, "unlinked" without effect, and pushed. */
  lemma FreeTakenChain(l: Links, n: nat, order: seq<int>, first: int, free: seq<int>)
    requires InRange(l, n) && Chain(l, n, order) && FreeChain(l.next, first, free)
    requires |free| > 0 && forall s | s in free :: s !in order
    ensures var r := Evicted(l, n, first, false);
      Chain(r, n, [first] + order) && FreeChain(r.next, l.next[first], free[1..])
  {
    hide Pushed;
    assert first in free;
    ClearUnlisted(l, n, order, first);
    var c := Cleared(l, n, first);
    assert Unlinked(c, n, first) == c by { EndsListed(l, n, order); }
    PushedChain(c, n, order, first);
    FreeRest(l.next, first, free, Pushed(c, n, first).next);
  }

  lemma EndsListed(l: Links, n: nat, order: seq<int>)
    requires InRange(l, n) && Chain(l, n, order)
    ensures l.first == -1 || l.first in order
    ensures l.last == -1 || l.last in order
  {}

  lemma FreeRest(next: seq<int>, first: int, free: seq<int>, next': seq<int>)
    requires |next'| == |next| && FreeChain(next, first, free) && |free| > 0
    requires forall s | 0 <= s < |next| && s != first :: next'[s] == next[s]
    ensures FreeChain(next', next[first], free[1..])
  {}

  /** In the source's order the links are still a list afterwards exactly when the
      victim was alone: otherwise the victim is both head and tail, yet has a
      successor. */
  lemma EvictedClearFirst(l: Links, n: nat, order: seq<int>)
    requires InRange(l, n) && Chain(l, n, order) && |order| > 0
    ensures (exists o :: Chain(Evicted(l, n, l.last, false), n, o)) <==> |order| == 1
  {
    hide RemoveAt;
    var r := Evicted(l, n, l.last, false);
    if |order| == 1 {
      assert r.first == r.last == l.last && r.next[l.last] == -1 && r.prev[l.last] == -1;
      assert Chain(r, n, [l.last]);
    } else {
      assert l.first == order[0] != l.last;
      assert r.first == r.last == l.last && r.next[l.last] == order[0];
      forall o | Chain(r, n, o)
        ensures false
      {
        TailHasNoNext(r, n, o);
      }
    }
  }
}
