/** The order in which block ids were last used, computed from the log of all uses.
    This is the specification the cache list is compared with. */
module Recency {
  import opened LruList

  ghost predicate Distinct(r: seq<int>) {
    forall i, j | 0 <= i < j < |r| :: r[i] != r[j]
  }

  ghost function Without(r: seq<int>, id: int): (q: seq<int>)
    ensures forall x {:trigger x in q} :: x in q ==> x in r
  {
    if r == [] then []
    else if r[0] == id then r[1..]
    else [r[0]] + Without(r[1..], id)
  }

  /** Ids by most recent use, most recent first. */
  ghost function Recent(log: seq<int>): seq<int> {
    if log == [] then []
    else [log[|log| - 1]] + Without(Recent(log[..|log| - 1]), log[|log| - 1])
  }

  /** Position of the last use of an id, -1 if it was never used. */
  ghost function LastUse(log: seq<int>, id: int): int {
    if log == [] then -1
    else if log[|log| - 1] == id then |log| - 1
    else LastUse(log[..|log| - 1], id)
  }

  lemma {:induction false} WithoutDistinct(r: seq<int>, id: int)
    requires Distinct(r)
    ensures Distinct(Without(r, id))
    ensures forall x :: x in Without(r, id) <==> x in r && x != id
  {
    if r != [] && r[0] != id {
      WithoutDistinct(r[1..], id);
      var q := Without(r[1..], id);
      assert r == [r[0]] + r[1..];
      assert r[0] !in q;
    }
  }

  /** Dropping an id does not disturb those before it, nor the order of the rest. */
  lemma {:induction false} WithoutAt(r: seq<int>, k: nat)
    requires Distinct(r) && k < |r|
    ensures Without(r, r[k]) == RemoveAt(r, k)
  {
    if k == 0 {
      assert RemoveAt(r, 0) == r[1..];
    } else {
      hide RemoveAt;
      assert r[1..][k - 1] == r[k] && r[0] != r[k];
      WithoutAt(r[1..], k - 1);
      RemoveAtCons(r, k);
    }
  }

  lemma RemoveAtCons(r: seq<int>, k: nat)
    requires 0 < k < |r|
    ensures RemoveAt(r, k) == [r[0]] + RemoveAt(r[1..], k - 1)
  {}

  lemma {:induction false} WithoutPrefix(r: seq<int>, id: int, m: nat)
    requires m <= |r| && id !in r[..m]
    ensures m <= |Without(r, id)| && Without(r, id)[..m] == r[..m]
  {
    if m > 0 {
      assert r[0] == r[..m][0] != id;
      assert r[1..][..m - 1] == r[..m][1..];
      WithoutPrefix(r[1..], id, m - 1);
      assert Without(r, id)[..m] == [r[0]] + Without(r[1..], id)[..m - 1];
    }
  }

  lemma {:induction false} WithoutAbsent(r: seq<int>, id: int)
    requires id !in r
    ensures Without(r, id) == r
  {
    WithoutPrefix(r, id, |r|);
    WithoutLength(r, id);
    assert r[..|r|] == r;
  }

  lemma {:induction false} WithoutLength(r: seq<int>, id: int)
    ensures |Without(r, id)| <= |r|
  {
    if r != [] { WithoutLength(r[1..], id); }
  }

  /** The list of recent ids is exactly what its name says: every used id once, and
      earlier entries were used later. */
  lemma {:induction false} RecentOrder(log: seq<int>)
    ensures Distinct(Recent(log))
    ensures forall id :: id in Recent(log) <==> id in log
    ensures forall i, j | 0 <= i < j < |Recent(log)| :: LastUse(log, Recent(log)[i]) > LastUse(log, Recent(log)[j])
  {
    if log != [] {
      var l, x := log[..|log| - 1], log[|log| - 1];
      RecentOrder(l);
      UsedStep(l, x);
      assert log == l + [x];
      assert Recent(log) == [x] + Without(Recent(l), x);
    }
  }

  /** The order after one more use. */
  lemma UsedStep(l: seq<int>, x: int)
    requires Distinct(Recent(l))
    requires forall i, j | 0 <= i < j < |Recent(l)| :: LastUse(l, Recent(l)[i]) > LastUse(l, Recent(l)[j])
    ensures var log, q := l + [x], [x] + Without(Recent(l), x);
      && Distinct(q) && (forall id :: id in q <==> id == x || id in Recent(l))
      && forall i, j | 0 <= i < j < |q| :: LastUse(log, q[i]) > LastUse(log, q[j])
  {
    hide Recent, Without;
    var log, r, w := l + [x], Recent(l), Without(Recent(l), x);
    var q := [x] + w;
    WithoutDistinct(r, x);
    assert log[..|log| - 1] == l;
    forall i, j | 0 <= i < j < |q|
      ensures LastUse(log, q[i]) > LastUse(log, q[j]) && q[i] != q[j]
    {
      LastUseBound(l, q[j]);
      assert q[j] == w[j - 1] && q[j] in w;
      if i > 0 {
        assert w[i - 1] != w[j - 1];
        WithoutOrder(l, r, x, i - 1, j - 1);
      }
    }
  }

  lemma {:induction false} LastUseBound(log: seq<int>, id: int)
    ensures LastUse(log, id) < |log|
  {
    if log != [] { LastUseBound(log[..|log| - 1], id); }
  }

  lemma WithoutOrder(log: seq<int>, r: seq<int>, x: int, i: nat, j: nat)
    requires Distinct(r) && i < j < |Without(r, x)|
    requires forall a, b | 0 <= a < b < |r| :: LastUse(log, r[a]) > LastUse(log, r[b])
    ensures LastUse(log, Without(r, x)[i]) > LastUse(log, Without(r, x)[j])
    ensures Without(r, x)[i] != x
  {
    hide RemoveAt;
    WithoutDistinct(r, x);
    assert Without(r, x)[i] in Without(r, x);
    if x in r {
      var k :| 0 <= k < |r| && r[k] == x;
      WithoutAt(r, k);
    } else {
      WithoutAbsent(r, x);
    }
  }

  /** What one more use does to the first m ids: a use of the k-th of them only
      reorders them, and an id outside them pushes in at the front. */
  lemma RecentHit(log: seq<int>, k: nat)
    requires k < |Recent(log)|
    ensures var r := Recent(log); Recent(log + [r[k]]) == [r[k]] + RemoveAt(r, k)
  {
    var r := Recent(log);
    RecentOrder(log);
    WithoutAt(r, k);
    assert (log + [r[k]])[..|log|] == log;
  }

  lemma RecentMiss(log: seq<int>, id: int, m: nat)
    requires m <= |Recent(log)| && id !in Recent(log)[..m]
    ensures m + 1 <= |Recent(log + [id])|
    ensures Recent(log + [id])[..m + 1] == [id] + Recent(log)[..m]
  {
    WithoutPrefix(Recent(log), id, m);
    assert (log + [id])[..|log|] == log;
  }
}
