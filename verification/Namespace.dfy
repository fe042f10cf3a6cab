/** The name space: what a list of components leads to, and when that changes. */
module Namespace {
  import opened Blocks
  import opened Paths
  import opened DirEntries
  import opened DirScan
  import opened Files
  import opened Wrappers

  type Comps = seq<Str>

  ghost function Lookup(files: map<int, FileRec>, d: int, name: Str): Option<Word> {
    if d in files && files[d].isDir && name in Names(files[d]) then Some(Names(files[d])[name]) else None
  }

  /** Following components from the root: the meaning of a path. */
  ghost function Walk(files: map<int, FileRec>, root: Word, cs: Comps): Option<Word> {
    if |cs| == 0 then Some(root)
    else
      var before := Walk(files, root, cs[..|cs| - 1]);
      if before.None? then None else Lookup(files, before.value, cs[|cs| - 1])
  }

  /** Every directory is well formed and every entry leads to a file. */
  ghost predicate TableOk(files: map<int, FileRec>, root: Word) {
    root in files && Closed(files)
  }

  lemma {:induction false} WalkClosed(files: map<int, FileRec>, root: Word, cs: Comps)
    requires TableOk(files, root) && Walk(files, root, cs).Some?
    ensures Walk(files, root, cs).value in files
  {}

  /** A path that leads somewhere does so for all its prefixes. */
  lemma {:induction false} WalkPrefix(files: map<int, FileRec>, root: Word, cs: Comps, n: nat)
    requires n <= |cs| && Walk(files, root, cs).Some?
    ensures Walk(files, root, cs[..n]).Some?
    decreases |cs|
  {
    if n == |cs| {
      assert cs[..n] == cs;
    } else {
      WalkPrefix(files, root, cs[..|cs| - 1], n);
      assert cs[..|cs| - 1][..n] == cs[..n];
    }
  }

  /** The two tables agree on every lookup but those of the changed names and those in
      the inode `skip` (or -1). */
  ghost predicate Agree(files: map<int, FileRec>, files': map<int, FileRec>, changed: set<(int, Str)>, skip: int) {
    forall d, n | (d, n) !in changed && (skip < 0 || d != skip) :: Lookup(files', d, n) == Lookup(files, d, n)
  }

  /** The path cs goes through one of the changed names, or through `skip`. */
  ghost predicate Uses(files: map<int, FileRec>, root: Word, cs: Comps, changed: set<(int, Str)>, skip: int) {
    exists i :: 0 <= i < |cs| && Walk(files, root, cs[..i]).Some? &&
      ((Walk(files, root, cs[..i]).value as int, cs[i]) in changed || Walk(files, root, cs[..i]).value as int == skip)
  }

  /** A path that does not go through a changed name leads where it led. */
  lemma {:induction false} WalkFrame(files: map<int, FileRec>, files': map<int, FileRec>, root: Word, cs: Comps,
          changed: set<(int, Str)>, skip: int)
    requires Agree(files, files', changed, skip) && !Uses(files, root, cs, changed, skip)
    ensures Walk(files', root, cs) == Walk(files, root, cs)
  {
    if |cs| > 0 {
      var n, q := |cs| - 1, cs[..|cs| - 1];
      assert Walk(files, root, cs[..n]).Some? ==>
        (Walk(files, root, cs[..n]).value as int, cs[n]) !in changed && Walk(files, root, cs[..n]).value as int != skip;
      forall i | 0 <= i < |q| && Walk(files, root, q[..i]).Some?
        ensures (Walk(files, root, q[..i]).value as int, q[i]) !in changed
        ensures Walk(files, root, q[..i]).value as int != skip
      {
        assert q[..i] == cs[..i];
      }
      WalkFrame(files, files', root, q, changed, skip);
    }
  }

  /** A directory is reached along one path only (without "." and ".."). */
  ghost predicate TreeLike(files: map<int, FileRec>, root: Word) {
    forall p: Comps, q: Comps | NoDots(p) && NoDots(q) && Walk(files, root, p).Some? &&
      Walk(files, root, p) == Walk(files, root, q) &&
      Walk(files, root, p).value in files && files[Walk(files, root, p).value].isDir :: p == q
  }

  ghost predicate NoDots(cs: Comps) {
    forall i | 0 <= i < |cs| :: cs[i] != DOT && cs[i] != DOTDOT
  }

  lemma TreeOnce(files: map<int, FileRec>, root: Word, p: Comps, q: Comps)
    requires TreeLike(files, root) && NoDots(p) && NoDots(q) && Walk(files, root, p).Some?
    requires Walk(files, root, p) == Walk(files, root, q)
    requires Walk(files, root, p).value in files && files[Walk(files, root, p).value].isDir
    ensures p == q
  {}

  /** Each step of a path that leads somewhere is a lookup that succeeds. */
  lemma StepUsed(files: map<int, FileRec>, root: Word, cs: Comps, i: nat)
    requires Walk(files, root, cs).Some? && i < |cs|
    ensures Walk(files, root, cs[..i]).Some? && Lookup(files, Walk(files, root, cs[..i]).value, cs[i]).Some?
  {
    hide Lookup;
    WalkPrefix(files, root, cs, i + 1);
    assert cs[..i + 1][..i] == cs[..i];
  }

  /** In a tree, a path goes through the name n of the directory at q only if it
      starts with q and n. */
  lemma UsesPrefix(files: map<int, FileRec>, root: Word, cs: Comps, q: Comps, n: Str, i: nat)
    requires TreeLike(files, root) && NoDots(cs) && NoDots(q)
    requires Walk(files, root, cs).Some? && Walk(files, root, q).Some?
    requires i < |cs| && Walk(files, root, cs[..i]) == Walk(files, root, q) && cs[i] == n
    ensures q + [n] <= cs
  {
    hide TreeLike, Walk, Names;
    StepUsed(files, root, cs, i);
    TreeOnce(files, root, cs[..i], q);
    assert cs[..i + 1] == q + [n];
  }

  /** Every pair of a key and an inode says where the key leads. */
  ghost predicate PairsRight(files: map<int, FileRec>, root: Word, pairs: set<(Str, Word)>) {
    forall p | p in pairs :: NoDots(Parts(p.0)) && Walk(files, root, Parts(p.0)) == Some(p.1)
  }

  /** What removePrefix is for: after changes of the name n1 of the directory at q1 and
      of the name n2 of the directory at q2, the pairs whose key starts with neither
      path still say where the key leads. */
  lemma CoherentAfter(files: map<int, FileRec>, files': map<int, FileRec>, root: Word, pairs: set<(Str, Word)>,
          q1: Comps, n1: Str, q2: Comps, n2: Str)
    requires PairsRight(files, root, pairs) && TreeLike(files, root) && NoDots(q1) && NoDots(q2)
    requires Walk(files, root, q1).Some? && Walk(files, root, q2).Some?
    requires Agree(files, files', {(Walk(files, root, q1).value as int, n1),
      (Walk(files, root, q2).value as int, n2)}, -1)
    ensures PairsRight(files', root, set p | p in pairs && !(Join(q1 + [n1]) <= p.0) && !(Join(q2 + [n2]) <= p.0))
  {
    hide Walk, TreeLike, Agree, Join, Parts, NoDots;
    var changed := {(Walk(files, root, q1).value as int, n1), (Walk(files, root, q2).value as int, n2)};
    forall p | p in pairs && !(Join(q1 + [n1]) <= p.0) && !(Join(q2 + [n2]) <= p.0)
      ensures NoDots(Parts(p.0)) && Walk(files', root, Parts(p.0)) == Some(p.1)
    {
      var cs := Parts(p.0);
      forall i: nat | i < |cs| && Walk(files, root, cs[..i]).Some?
        ensures (Walk(files, root, cs[..i]).value as int, cs[i]) !in changed
      {
        if Walk(files, root, cs[..i]) == Walk(files, root, q1) && cs[i] == n1 {
          UsesPrefix(files, root, cs, q1, n1, i);
          KeyPrefix(p.0, q1 + [n1]);
        }
        if Walk(files, root, cs[..i]) == Walk(files, root, q2) && cs[i] == n2 {
          UsesPrefix(files, root, cs, q2, n2, i);
          KeyPrefix(p.0, q2 + [n2]);
        }
      }
      WalkFrame(files, files', root, cs, changed, -1);
    }
  }

  /** A name that was not there needs no second call. */
  lemma CoherentMoved(files: map<int, FileRec>, files': map<int, FileRec>, root: Word, pairs: set<(Str, Word)>,
          q1: Comps, n1: Str, d2: int, n2: Str)
    requires PairsRight(files, root, pairs) && TreeLike(files, root) && NoDots(q1) && Walk(files, root, q1).Some?
    requires Agree(files, files', {(Walk(files, root, q1).value as int, n1), (d2, n2)}, -1)
    requires (d2, n2) == (Walk(files, root, q1).value as int, n1) || Lookup(files, d2, n2).None?
    ensures PairsRight(files', root, set p | p in pairs && !(Join(q1 + [n1]) <= p.0))
  {
    hide Walk, TreeLike, Agree, Join, Parts, NoDots, Lookup;
    var changed := {(Walk(files, root, q1).value as int, n1), (d2, n2)};
    forall p | p in pairs && !(Join(q1 + [n1]) <= p.0)
      ensures NoDots(Parts(p.0)) && Walk(files', root, Parts(p.0)) == Some(p.1)
    {
      var cs := Parts(p.0);
      forall i: nat | i < |cs| && Walk(files, root, cs[..i]).Some?
        ensures (Walk(files, root, cs[..i]).value as int, cs[i]) !in changed
      {
        StepUsed(files, root, cs, i);
        if Walk(files, root, cs[..i]) == Walk(files, root, q1) && cs[i] == n1 {
          UsesPrefix(files, root, cs, q1, n1, i);
          KeyPrefix(p.0, q1 + [n1]);
        }
      }
      WalkFrame(files, files', root, cs, changed, -1);
    }
  }

  lemma KeyPrefix(key: Str, cs: Comps)
    requires |cs| > 0 && cs <= Parts(key)
    ensures Join(cs) <= key
  {
    PartsSplit(key);
    JoinPrefix(Parts(key), |cs|);
    assert Parts(key)[..|cs|] == cs;
  }

  /** No path leads to the inode. */
  ghost predicate Unreachable(files: map<int, FileRec>, root: Word, id: int) {
    forall cs: Comps | NoDots(cs) :: Walk(files, root, cs).None? || Walk(files, root, cs).value as int != id
  }

  /** A new name hides nothing: no key goes through it yet. */
  lemma CoherentAdd(files: map<int, FileRec>, files': map<int, FileRec>, root: Word, pairs: set<(Str, Word)>, d: int,
          n: Str, id: int)
    requires PairsRight(files, root, pairs) && Lookup(files, d, n).None? && Unreachable(files, root, id)
    requires Agree(files, files', {(d, n)}, id)
    ensures PairsRight(files', root, pairs)
  {
    hide Agree, Parts, Lookup, Walk;
    forall p | p in pairs
      ensures Walk(files', root, Parts(p.0)) == Some(p.1)
    {
      var cs := Parts(p.0);
      forall i | 0 <= i < |cs| && Walk(files, root, cs[..i]).Some?
        ensures (Walk(files, root, cs[..i]).value as int, cs[i]) !in {(d, n)}
        ensures Walk(files, root, cs[..i]).value as int != id
      {
        StepUsed(files, root, cs, i);
      }
      WalkFrame(files, files', root, cs, {(d, n)}, id);
    }
  }

  predicate Dot(n: Str) {
    n == DOT || n == DOTDOT
  }

  /** Every inode has one name at most, apart from "." and "..", and the root none.
      (The file system offers no operation that makes a second one.) */
  ghost predicate Single(files: map<int, FileRec>, root: Word) {
    && (forall d, n | !Dot(n) :: Lookup(files, d, n) != Some(root))
    && (forall d, n, d', n' | !Dot(n) && !Dot(n') && Lookup(files, d, n).Some? &&
       Lookup(files, d, n) == Lookup(files, d', n') :: d == d' && n == n')
  }

  /** The invariant of the name space. */
  ghost predicate NsOk(files: map<int, FileRec>, used: set<int>, root: Word) {
    && TableOk(files, root)
    && Single(files, root)
    && root as int in used
    && forall d, n | !Dot(n) && Lookup(files, d, n).Some? :: Lookup(files, d, n).value as int in used
  }

  lemma {:induction false} SingleOnce(files: map<int, FileRec>, root: Word, p: Comps, q: Comps)
    requires Single(files, root) && NoDots(p) && NoDots(q) && Walk(files, root, p).Some?
    requires Walk(files, root, p) == Walk(files, root, q)
    ensures p == q
    decreases |p|
  {
    hide Lookup;
    if |p| > 0 && |q| > 0 {
      SingleOnce(files, root, p[..|p| - 1], q[..|q| - 1]);
      assert p == p[..|p| - 1] + [p[|p| - 1]] && q == q[..|q| - 1] + [q[|q| - 1]];
    }
  }

  /** With single names the name space is a tree. */
  lemma SingleTree(files: map<int, FileRec>, root: Word)
    requires Single(files, root)
    ensures TreeLike(files, root)
  {
    hide Lookup, Walk, Single, NoDots;
    forall p: Comps, q: Comps | NoDots(p) && NoDots(q) && Walk(files, root, p).Some? &&
      Walk(files, root, p) == Walk(files, root, q)
      ensures p == q
    {
      SingleOnce(files, root, p, q);
    }
  }

  /** An inode that is not in use is not reached. */
  lemma FreeUnreachable(files: map<int, FileRec>, used: set<int>, root: Word, id: int)
    requires NsOk(files, used, root) && id !in used
    ensures Unreachable(files, root, id)
  {
    hide Lookup, TableOk, Single;
    forall cs: Comps | NoDots(cs) && Walk(files, root, cs).Some?
      ensures Walk(files, root, cs).value as int != id
    {
      if |cs| > 0 { assert !Dot(cs[|cs| - 1]); }
    }
  }

  /** How the table looks after a name was made, taken away, or moved. */
  ghost predicate Made(files: map<int, FileRec>, files': map<int, FileRec>, d: int, n: Str, id: int) {
    && Agree(files, files', {(d, n)}, id)
    && Lookup(files', d, n).Some? && Lookup(files', d, n).value as int == id
    && forall x | !Dot(x) && (id, x) != (d, n) :: Lookup(files', id, x).None?
  }

  ghost predicate Moved(files: map<int, FileRec>, files': map<int, FileRec>, d1: int, n1: Str, d2: int, n2: Str) {
    && Agree(files, files', {(d1, n1), (d2, n2)}, -1)
    && Lookup(files', d2, n2) == Lookup(files, d1, n1)
    && ((d1, n1) != (d2, n2) ==> Lookup(files', d1, n1).None?)
  }

  ghost predicate Taken(files: map<int, FileRec>, files': map<int, FileRec>, d: int, n: Str) {
    Agree(files, files', {(d, n)}, -1) && Lookup(files', d, n).None?
  }

  ghost predicate Swapped(files: map<int, FileRec>, files': map<int, FileRec>, d1: int, n1: Str, d2: int, n2: Str) {
    && Agree(files, files', {(d1, n1), (d2, n2)}, -1)
    && Lookup(files', d1, n1) == Lookup(files, d2, n2)
    && Lookup(files', d2, n2) == Lookup(files, d1, n1)
  }

  lemma MadeOk(files: map<int, FileRec>, files': map<int, FileRec>, used: set<int>, root: Word, d: int, n: Str, id: int)
    requires NsOk(files, used, root) && Made(files, files', d, n, id) && id !in used && TableOk(files', root)
    requires !Dot(n)
    ensures NsOk(files', used + {id}, root)
  {
    hide Lookup, TableOk;
  }

  /** Where a name was before b took over the inode of a, and a that of b if `swap`. */
  function Source(p: (int, Str), a: (int, Str), b: (int, Str), swap: bool): (int, Str) {
    if p == b then a else if p == a && swap then b else p
  }

  /** If every name of the new table has the inode its source had, names stay single. */
  lemma SingleFrom(files: map<int, FileRec>, files': map<int, FileRec>, used: set<int>, root: Word, a: (int, Str),
          b: (int, Str), swap: bool)
    requires NsOk(files, used, root) && !Dot(a.1) && !Dot(b.1)
    requires forall d, n | !Dot(n) && Lookup(files', d, n).Some? ::
      var p := Source((d, n), a, b, swap); Lookup(files, p.0, p.1) == Lookup(files', d, n)
    requires swap || a == b || Lookup(files', a.0, a.1).None?
    ensures Single(files', root)
    ensures forall d, n | !Dot(n) && Lookup(files', d, n).Some? ::
      Lookup(files', d, n).value as int in used && Lookup(files', d, n).value != root
  {
    hide Lookup, TableOk;
    forall d, n, d', n' | !Dot(n) && !Dot(n') && Lookup(files', d, n).Some? &&
      Lookup(files', d, n) == Lookup(files', d', n')
      ensures d == d' && n == n'
    {
      var p, p' := Source((d, n), a, b, swap), Source((d', n'), a, b, swap);
      assert Lookup(files, p.0, p.1) == Lookup(files, p'.0, p'.1);
      assert p == p';
    }
  }

  lemma TakenOk(files: map<int, FileRec>, files': map<int, FileRec>, used: set<int>, root: Word, d: int, n: Str)
    requires NsOk(files, used, root) && Taken(files, files', d, n) && TableOk(files', root)
    requires !Dot(n) && Lookup(files, d, n).Some?
    ensures NsOk(files', used - {Lookup(files, d, n).value as int}, root) && NsOk(files', used, root)
  {
    hide Lookup, TableOk;
    SingleFrom(files, files', used, root, (d, n), (d, n), false);
    forall e, x | !Dot(x) && Lookup(files', e, x).Some?
      ensures Lookup(files', e, x) != Lookup(files, d, n)
    {
      assert Lookup(files', e, x) == Lookup(files, e, x);
    }
  }
}
