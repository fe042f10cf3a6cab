/** What making, taking, moving and exchanging names does to every path at once. */
module Moves {
  import opened Blocks
  import opened Paths
  import opened Files
  import opened Namespace
  import opened Wrappers

  /** q leads to a directory. */
  ghost predicate LeadsToDir(files: map<int, FileRec>, root: Word, q: Comps) {
    NoDots(q) && Walk(files, root, q).Some? && Walk(files, root, q).value in files &&
      files[Walk(files, root, q).value].isDir
  }

  lemma LeadsIs(files: map<int, FileRec>, root: Word, q: Comps)
    requires forall i | 0 <= i < |q| :: q[i] != [46] && q[i] != [46, 46]
    ensures LeadsToDir(files, root, q) <==>
      && Walk(files, root, q).Some? && Walk(files, root, q).value in files
      && files[Walk(files, root, q).value].isDir
  {}

  /** The directory q leads to. */
  ghost function DirAt(files: map<int, FileRec>, root: Word, q: Comps): int
    requires LeadsToDir(files, root, q)
  {
    Walk(files, root, q).value
  }

  /** The steps of a path do not use the given names, nor the inode `skip`. */
  ghost predicate Avoids(files: map<int, FileRec>, root: Word, a: Comps, rest: Comps, changed: set<(int, Str)>,
          skip: int)
  {
    forall i | 0 <= i < |rest| && Walk(files, root, a + rest[..i]).Some? ::
      (Walk(files, root, a + rest[..i]).value as int, rest[i]) !in changed &&
        Walk(files, root, a + rest[..i]).value as int != skip
  }

  /** If b leads now where a led, so do their common continuations. */
  lemma {:induction false} WalkRest(files: map<int, FileRec>, files': map<int, FileRec>, root: Word, a: Comps, b: Comps,
          rest: Comps, changed: set<(int, Str)>, skip: int)
    requires Agree(files, files', changed, skip) && Avoids(files, root, a, rest, changed, skip)
    requires Walk(files', root, b) == Walk(files, root, a)
    ensures Walk(files', root, b + rest) == Walk(files, root, a + rest)
    decreases |rest|
  {
    hide Lookup, Walk, Avoids, Agree;
    if rest == [] {
      assert a + rest == a && b + rest == b;
    } else {
      var r, x := rest[..|rest| - 1], rest[|rest| - 1];
      assert a + rest == a + r + [x] && b + rest == b + r + [x];
      AvoidsLess(files, root, a, rest, changed, skip);
      WalkRest(files, files', root, a, b, r, changed, skip);
      WalkStep(files, root, a + rest, a + r, x);
      WalkStep(files', root, b + rest, b + r, x);
      if Walk(files, root, a + r).Some? {
        AgreeAt(files, files', changed, skip, Walk(files, root, a + r).value, x);
      }
    }
  }

  lemma AgreeAt(files: map<int, FileRec>, files': map<int, FileRec>, changed: set<(int, Str)>, skip: int, d: int,
          n: Str)
    requires Agree(files, files', changed, skip) && (d, n) !in changed && d != skip
    ensures Lookup(files', d, n) == Lookup(files, d, n)
  {}

  lemma AvoidsLess(files: map<int, FileRec>, root: Word, a: Comps, rest: Comps, changed: set<(int, Str)>, skip: int)
    requires |rest| > 0 && Avoids(files, root, a, rest, changed, skip)
    ensures var n := |rest| - 1;
      && Avoids(files, root, a, rest[..n], changed, skip)
      && (Walk(files, root, a + rest[..n]).Some? ==>
            (Walk(files, root, a + rest[..n]).value as int, rest[n]) !in changed &&
              Walk(files, root, a + rest[..n]).value as int != skip)
  {
    hide Walk;
    var n := |rest| - 1;
    forall i | 0 <= i < n && Walk(files, root, a + rest[..n][..i]).Some?
      ensures (Walk(files, root, a + rest[..n][..i]).value as int, rest[i]) !in changed
      ensures Walk(files, root, a + rest[..n][..i]).value as int != skip
    {
      assert rest[..n][..i] == rest[..i];
    }
  }

  lemma WalkStep(files: map<int, FileRec>, root: Word, cs: Comps, q: Comps, n: Str)
    requires cs == q + [n]
    ensures Walk(files, root, cs) ==
      if Walk(files, root, q).None? then None else Lookup(files, Walk(files, root, q).value, n)
  {}

  /** Where a prefix leads nowhere, so does the path. */
  lemma WalkBeyond(files: map<int, FileRec>, root: Word, cs: Comps, p: Comps)
    requires p <= cs && Walk(files, root, p).None?
    ensures Walk(files, root, cs).None?
  {
    if Walk(files, root, cs).Some? {
      WalkPrefix(files, root, cs, |p|);
      assert cs[..|p|] == p;
    }
  }

  /** In a tree a step from the directory of q by the name n is only made along q + [n]. */
  lemma StepPlace(files: map<int, FileRec>, root: Word, p: Comps, x: Str, q: Comps, n: Str)
    requires TreeLike(files, root) && NoDots(p) && LeadsToDir(files, root, q)
    requires Walk(files, root, p).Some? && (Walk(files, root, p).value as int, x) == (DirAt(files, root, q), n)
    ensures p + [x] == q + [n]
  {}

  /** A continuation of `a` that does not come to q + [n] does not use that name. */
  lemma AvoidsName(files: map<int, FileRec>, root: Word, a: Comps, rest: Comps, q: Comps, n: Str)
    requires TreeLike(files, root) && NoDots(a) && NoDots(rest) && LeadsToDir(files, root, q)
    requires |q| < |a| || !(q + [n] <= a + rest)
    ensures Avoids(files, root, a, rest, {(DirAt(files, root, q), n)}, -1)
  {
    hide TreeLike, Walk;
    forall i | 0 <= i < |rest| && Walk(files, root, a + rest[..i]).Some?
      ensures (Walk(files, root, a + rest[..i]).value as int, rest[i]) != (DirAt(files, root, q), n)
    {
      assert (a + rest)[..|a| + i + 1] == a + rest[..i] + [rest[i]];
      if (Walk(files, root, a + rest[..i]).value as int, rest[i]) == (DirAt(files, root, q), n) {
        StepPlace(files, root, a + rest[..i], rest[i], q, n);
      }
    }
  }

  lemma AvoidsBoth(files: map<int, FileRec>, root: Word, a: Comps, rest: Comps, q1: Comps, n1: Str, q2: Comps, n2: Str)
    requires TreeLike(files, root) && NoDots(a) && NoDots(rest) && LeadsToDir(files, root, q1)
    requires LeadsToDir(files, root, q2)
    requires |q1| < |a| || !(q1 + [n1] <= a + rest)
    requires |q2| < |a| || !(q2 + [n2] <= a + rest)
    ensures Avoids(files, root, a, rest, {(DirAt(files, root, q1), n1), (DirAt(files, root, q2), n2)}, -1)
  {
    hide TreeLike, Walk, NoDots, LeadsToDir;
    AvoidsName(files, root, a, rest, q1, n1);
    AvoidsName(files, root, a, rest, q2, n2);
  }

  /** A path not starting with either changed name leads where it led. */
  lemma OtherPath(files: map<int, FileRec>, files': map<int, FileRec>, root: Word, q1: Comps, n1: Str, q2: Comps,
          n2: Str, cs: Comps)
    requires TreeLike(files, root) && LeadsToDir(files, root, q1) && LeadsToDir(files, root, q2) && NoDots(cs)
    requires Agree(files, files', {(DirAt(files, root, q1), n1), (DirAt(files, root, q2), n2)}, -1)
    requires !(q1 + [n1] <= cs) && !(q2 + [n2] <= cs)
    ensures Walk(files', root, cs) == Walk(files, root, cs)
  {
    hide TreeLike, Lookup, Avoids;
    assert [] + cs == cs;
    AvoidsBoth(files, root, [], cs, q1, n1, q2, n2);
    WalkRest(files, files', root, [], [], cs, {(DirAt(files, root, q1), n1), (DirAt(files, root, q2), n2)}, -1);
  }

  lemma LongerPrefix(a: Comps, rest: Comps, q: Comps, n: Str)
    ensures |a| <= |q| && q + [n] <= a + rest ==> a <= q
  {
    if |a| <= |q| && q + [n] <= a + rest {
      assert (a + rest)[..|a|] == a && (q + [n])[..|a|] == q[..|a|];
    }
  }

  /** A name that took over an inode leads, with all that follows, where the inode's old
      name led. */
  lemma Carried(files: map<int, FileRec>, files': map<int, FileRec>, root: Word, q1: Comps, n1: Str, q2: Comps, n2: Str,
          rest: Comps)
    requires TreeLike(files, root) && LeadsToDir(files, root, q1) && LeadsToDir(files, root, q2) && NoDots(rest)
    requires !Dot(n1)
    requires Agree(files, files', {(DirAt(files, root, q1), n1), (DirAt(files, root, q2), n2)}, -1)
    requires Lookup(files', DirAt(files, root, q2), n2) == Lookup(files, DirAt(files, root, q1), n1)
    requires !(q1 + [n1] <= q2)
    ensures Walk(files', root, q2 + [n2] + rest) == Walk(files, root, q1 + [n1] + rest)
  {
    hide TreeLike, Lookup, Avoids, Walk, Agree;
    OtherPath(files, files', root, q1, n1, q2, n2, q2);
    WalkStep(files, root, q1 + [n1], q1, n1);
    WalkStep(files', root, q2 + [n2], q2, n2);
    LongerPrefix(q1 + [n1], rest, q2, n2);
    AvoidsBoth(files, root, q1 + [n1], rest, q1, n1, q2, n2);
    WalkRest(files, files', root, q1 + [n1], q2 + [n2], rest,
      {(DirAt(files, root, q1), n1), (DirAt(files, root, q2), n2)}, -1);
  }

  /** Rename: the new path and all below it lead where the old one and all below it
      led, the old path leads nowhere, and every other path leads where it led. The
      target is not below the source, nor the source below an existing target. */
  lemma MovedWalk(files: map<int, FileRec>, files': map<int, FileRec>, root: Word, q1: Comps, n1: Str, q2: Comps,
          n2: Str, cs: Comps)
    requires Single(files, root) && LeadsToDir(files, root, q1) && LeadsToDir(files, root, q2) && NoDots(cs) && !Dot(n1)
    requires Moved(files, files', DirAt(files, root, q1), n1, DirAt(files, root, q2), n2)
    requires !(q1 + [n1] <= q2) && (Lookup(files, DirAt(files, root, q2), n2).Some? ==> !(q2 + [n2] <= q1))
    ensures Walk(files', root, cs) ==
            if q2 + [n2] <= cs then Walk(files, root, q1 + [n1] + cs[|q2| + 1..])
            else if q1 + [n1] <= cs then None
            else Walk(files, root, cs)
  {
    hide TreeLike, Lookup, Single, Walk, Agree;
    SingleTree(files, root);
    if q2 + [n2] <= cs {
      Carried(files, files', root, q1, n1, q2, n2, cs[|q2| + 1..]);
      assert cs == q2 + [n2] + cs[|q2| + 1..];
    } else if q1 + [n1] <= cs {
      NotAbove(files, root, q1, q2, n2);
      OtherPath(files, files', root, q1, n1, q2, n2, q1);
      WalkStep(files', root, q1 + [n1], q1, n1);
      if (DirAt(files, root, q1), n1) == (DirAt(files, root, q2), n2) { TreeOnce(files, root, q1, q2); }
      WalkBeyond(files', root, cs, q1 + [n1]);
    } else {
      OtherPath(files, files', root, q1, n1, q2, n2, cs);
    }
  }

  /** A name that does not exist is not on the way to anything. */
  lemma NotAbove(files: map<int, FileRec>, root: Word, q1: Comps, q2: Comps, n2: Str)
    requires LeadsToDir(files, root, q1) && LeadsToDir(files, root, q2)
    requires Lookup(files, DirAt(files, root, q2), n2).Some? ==> !(q2 + [n2] <= q1)
    ensures !(q2 + [n2] <= q1)
  {
    assert q2 + [n2] <= q1 ==> q1[..|q2|] == q2 && q1[|q2|] == n2;
    if q2 + [n2] <= q1 {
      StepUsed(files, root, q1, |q2|);
    }
  }

  /** Exchange: the two subtrees change places and nothing else. */
  lemma SwappedWalk(files: map<int, FileRec>, files': map<int, FileRec>, root: Word, q1: Comps, n1: Str, q2: Comps,
          n2: Str, cs: Comps)
    requires Single(files, root) && LeadsToDir(files, root, q1) && LeadsToDir(files, root, q2) && NoDots(cs) && !Dot(n1)
    requires !Dot(n2)
    requires Swapped(files, files', DirAt(files, root, q1), n1, DirAt(files, root, q2), n2)
    requires !(q1 + [n1] <= q2) && !(q2 + [n2] <= q1)
    ensures Walk(files', root, cs) ==
            if q2 + [n2] <= cs then Walk(files, root, q1 + [n1] + cs[|q2| + 1..])
            else if q1 + [n1] <= cs then Walk(files, root, q2 + [n2] + cs[|q1| + 1..])
            else Walk(files, root, cs)
  {
    hide TreeLike, Lookup, Single, Walk, Agree;
    SingleTree(files, root);
    if q2 + [n2] <= cs {
      Carried(files, files', root, q1, n1, q2, n2, cs[|q2| + 1..]);
      assert cs == q2 + [n2] + cs[|q2| + 1..];
    } else if q1 + [n1] <= cs {
      assert {(DirAt(files, root, q1), n1), (DirAt(files, root, q2), n2)} ==
        {(DirAt(files, root, q2), n2), (DirAt(files, root, q1), n1)};
      Carried(files, files', root, q2, n2, q1, n1, cs[|q1| + 1..]);
      assert cs == q1 + [n1] + cs[|q1| + 1..];
    } else {
      OtherPath(files, files', root, q1, n1, q2, n2, cs);
    }
  }

  /** Removal: the path and all below it lead nowhere, every other path where it led. */
  lemma TakenWalk(files: map<int, FileRec>, files': map<int, FileRec>, root: Word, q: Comps, n: Str, cs: Comps)
    requires Single(files, root) && LeadsToDir(files, root, q) && NoDots(cs)
    requires Taken(files, files', DirAt(files, root, q), n)
    ensures Walk(files', root, cs) == if q + [n] <= cs then None else Walk(files, root, cs)
  {
    hide TreeLike, Lookup, Single, Walk, Agree;
    SingleTree(files, root);
    var d := DirAt(files, root, q);
    assert {(d, n), (d, n)} == {(d, n)};
    if q + [n] <= cs {
      OtherPath(files, files', root, q, n, q, n, q);
      WalkStep(files', root, q + [n], q, n);
      WalkBeyond(files', root, cs, q + [n]);
    } else {
      OtherPath(files, files', root, q, n, q, n, cs);
    }
  }

  /** Two removals: both paths and all below them lead nowhere. */
  lemma BothTakenWalk(files: map<int, FileRec>, files': map<int, FileRec>, root: Word, q1: Comps, n1: Str, q2: Comps,
          n2: Str, cs: Comps)
    requires Single(files, root) && LeadsToDir(files, root, q1) && LeadsToDir(files, root, q2) && NoDots(cs)
    requires var d1, d2 := DirAt(files, root, q1), DirAt(files, root, q2);
      Agree(files, files', {(d1, n1), (d2, n2)}, -1) && Lookup(files', d1, n1).None? && Lookup(files', d2, n2).None?
    requires !(q1 + [n1] <= q2) && !(q2 + [n2] <= q1)
    ensures Walk(files', root, cs) == if q1 + [n1] <= cs || q2 + [n2] <= cs then None else Walk(files, root, cs)
  {
    hide TreeLike, Lookup, Single, Walk, Agree;
    SingleTree(files, root);
    if q1 + [n1] <= cs {
      OtherPath(files, files', root, q1, n1, q2, n2, q1);
      WalkStep(files', root, q1 + [n1], q1, n1);
      WalkBeyond(files', root, cs, q1 + [n1]);
    } else if q2 + [n2] <= cs {
      OtherPath(files, files', root, q1, n1, q2, n2, q2);
      WalkStep(files', root, q2 + [n2], q2, n2);
      WalkBeyond(files', root, cs, q2 + [n2]);
    } else {
      OtherPath(files, files', root, q1, n1, q2, n2, cs);
    }
  }

  /** Creation: the new path leads to the new inode, nothing leads beyond it, and every
      other path leads where it led. */
  lemma MadeWalk(files: map<int, FileRec>, files': map<int, FileRec>, root: Word, q: Comps, n: Str, id: int, cs: Comps)
    requires Single(files, root) && LeadsToDir(files, root, q) && NoDots(cs) && !Dot(n)
    requires Made(files, files', DirAt(files, root, q), n, id) && Unreachable(files, root, id)
    ensures Walk(files', root, cs) == if cs ==
      q + [n] then Some(id) else if q + [n] <= cs then None else Walk(files, root, cs)
  {
    hide TreeLike, Lookup, Single;
    SingleTree(files, root);
    var d := DirAt(files, root, q);
    if q + [n] <= cs {
      MadeFrame(files, files', root, q, n, id, q);
      WalkStep(files', root, q + [n], q, n);
      if cs != q + [n] {
        var p := cs[..|q| + 2];
        assert p == q + [n] + [cs[|q| + 1]];
        WalkStep(files', root, p, q + [n], cs[|q| + 1]);
        assert d != id;
        assert !Dot(cs[|q| + 1]);
        WalkBeyond(files', root, cs, p);
      }
    } else {
      MadeFrame(files, files', root, q, n, id, cs);
    }
  }

  lemma MadeFrame(files: map<int, FileRec>, files': map<int, FileRec>, root: Word, q: Comps, n: Str, id: int, cs: Comps)
    requires TreeLike(files, root) && LeadsToDir(files, root, q) && NoDots(cs) && !(q + [n] <= cs)
    requires Agree(files, files', {(DirAt(files, root, q), n)}, id) && Unreachable(files, root, id)
    ensures Walk(files', root, cs) == Walk(files, root, cs)
  {
    hide TreeLike, Lookup;
    assert [] + cs == cs;
    AvoidsName(files, root, [], cs, q, n);
    forall i | 0 <= i < |cs| && Walk(files, root, cs[..i]).Some?
      ensures Walk(files, root, cs[..i]).value as int != id
    {
      assert NoDots(cs[..i]);
    }
    assert forall i | 0 <= i < |cs| :: [] + cs[..i] == cs[..i];
    WalkRest(files, files', root, [], [], cs, {(DirAt(files, root, q), n)}, id);
  }

  /** What each operation means for all paths. */
  ghost predicate PathMade(files: map<int, FileRec>, files': map<int, FileRec>, root: Word, p: Comps, id: Word) {
    forall cs | NoDots(cs) ::
      Walk(files', root, cs) == if cs == p then Some(id) else if p <= cs then None else Walk(files, root, cs)
  }

  ghost predicate PathGone(files: map<int, FileRec>, files': map<int, FileRec>, root: Word, p: Comps) {
    forall cs | NoDots(cs) :: Walk(files', root, cs) == if p <= cs then None else Walk(files, root, cs)
  }

  ghost predicate PathMoved(files: map<int, FileRec>, files': map<int, FileRec>, root: Word, p1: Comps, p2: Comps) {
    forall cs | NoDots(cs) :: Walk(files', root, cs) ==
      if p2 <= cs then Walk(files, root, p1 + cs[|p2|..]) else if p1 <= cs then None else Walk(files, root, cs)
  }

  ghost predicate PathsSwapped(files: map<int, FileRec>, files': map<int, FileRec>, root: Word, p1: Comps, p2: Comps) {
    forall cs | NoDots(cs) :: Walk(files', root, cs) ==
      if p2 <= cs then Walk(files, root, p1 + cs[|p2|..])
      else if p1 <= cs then Walk(files, root, p2 + cs[|p1|..])
      else Walk(files, root, cs)
  }

  ghost predicate PathsGone(files: map<int, FileRec>, files': map<int, FileRec>, root: Word, p1: Comps, p2: Comps) {
    forall cs | NoDots(cs) :: Walk(files', root, cs) == if p1 <= cs || p2 <= cs then None else Walk(files, root, cs)
  }

  lemma GonePaths(files: map<int, FileRec>, files': map<int, FileRec>, root: Word, q1: Comps, n1: Str, q2: Comps,
          n2: Str)
    requires Single(files, root) && LeadsToDir(files, root, q1) && LeadsToDir(files, root, q2)
    requires var d1, d2 := DirAt(files, root, q1), DirAt(files, root, q2);
      Agree(files, files', {(d1, n1), (d2, n2)}, -1) && Lookup(files', d1, n1).None? && Lookup(files', d2, n2).None?
    requires !(q1 + [n1] <= q2) && !(q2 + [n2] <= q1)
    ensures PathsGone(files, files', root, q1 + [n1], q2 + [n2])
  {
    hide Walk, Single, Lookup, Agree;
    forall cs | NoDots(cs)
      ensures Walk(files', root, cs) == if q1 + [n1] <= cs || q2 + [n2] <= cs then None else Walk(files, root, cs)
    {
      BothTakenWalk(files, files', root, q1, n1, q2, n2, cs);
    }
  }

  ghost predicate PathsSame(files: map<int, FileRec>, files': map<int, FileRec>, root: Word) {
    forall cs | NoDots(cs) :: Walk(files', root, cs) == Walk(files, root, cs)
  }

  /** Nothing changes for paths when a directory finds what it found, and another inode
      is not reached. */
  lemma SamePaths(files: map<int, FileRec>, files': map<int, FileRec>, used: set<int>, root: Word, id: int)
    requires NsOk(files, used, root) && id !in used && Agree(files, files', {}, id)
    ensures PathsSame(files, files', root)
  {
    hide Walk, Single, Agree;
    FreeUnreachable(files, used, root, id);
    forall cs | NoDots(cs)
      ensures Walk(files', root, cs) == Walk(files, root, cs)
    {
      forall i | 0 <= i < |cs| && Walk(files, root, cs[..i]).Some?
        ensures Walk(files, root, cs[..i]).value as int != id
      {
        assert NoDots(cs[..i]);
      }
      WalkFrame(files, files', root, cs, {}, id);
    }
  }

  lemma MakePaths(files: map<int, FileRec>, files': map<int, FileRec>, used: set<int>, root: Word, q: Comps, n: Str,
          id: Word)
    requires NsOk(files, used, root) && LeadsToDir(files, root, q) && !Dot(n) && id as int !in used
    requires Made(files, files', DirAt(files, root, q), n, id)
    ensures PathMade(files, files', root, q + [n], id)
  {
    hide Walk, Single, Made;
    FreeUnreachable(files, used, root, id);
    forall cs | NoDots(cs)
      ensures Walk(files', root, cs) == if cs ==
        q + [n] then Some(id) else if q + [n] <= cs then None else Walk(files, root, cs)
    {
      MadeWalk(files, files', root, q, n, id, cs);
    }
  }

  lemma TakePaths(files: map<int, FileRec>, files': map<int, FileRec>, root: Word, q: Comps, n: Str)
    requires Single(files, root) && LeadsToDir(files, root, q) && Taken(files, files', DirAt(files, root, q), n)
    ensures PathGone(files, files', root, q + [n])
  {
    hide Walk, Single, Taken;
    forall cs | NoDots(cs)
      ensures Walk(files', root, cs) == if q + [n] <= cs then None else Walk(files, root, cs)
    {
      TakenWalk(files, files', root, q, n, cs);
    }
  }

  lemma MovePaths(files: map<int, FileRec>, files': map<int, FileRec>, root: Word, q1: Comps, n1: Str, q2: Comps,
          n2: Str)
    requires Single(files, root) && LeadsToDir(files, root, q1) && LeadsToDir(files, root, q2) && !Dot(n1)
    requires Moved(files, files', DirAt(files, root, q1), n1, DirAt(files, root, q2), n2)
    requires !(q1 + [n1] <= q2) && (Lookup(files, DirAt(files, root, q2), n2).Some? ==> !(q2 + [n2] <= q1))
    ensures PathMoved(files, files', root, q1 + [n1], q2 + [n2])
  {
    hide Walk, Single, Moved, Lookup;
    forall cs | NoDots(cs)
      ensures Walk(files', root, cs) ==
        if q2 + [n2] <= cs then Walk(files, root, q1 + [n1] + cs[|q2 + [n2]|..])
        else if q1 + [n1] <= cs then None
        else Walk(files, root, cs)
    {
      MovedWalk(files, files', root, q1, n1, q2, n2, cs);
    }
  }

  lemma SwapPaths(files: map<int, FileRec>, files': map<int, FileRec>, root: Word, q1: Comps, n1: Str, q2: Comps,
          n2: Str)
    requires Single(files, root) && LeadsToDir(files, root, q1) && LeadsToDir(files, root, q2) && !Dot(n1) && !Dot(n2)
    requires Swapped(files, files', DirAt(files, root, q1), n1, DirAt(files, root, q2), n2)
    requires !(q1 + [n1] <= q2) && !(q2 + [n2] <= q1)
    ensures PathsSwapped(files, files', root, q1 + [n1], q2 + [n2])
  {
    hide Walk, Single, Swapped, Lookup;
    forall cs | NoDots(cs)
      ensures Walk(files', root, cs) ==
        if q2 + [n2] <= cs then Walk(files, root, q1 + [n1] + cs[|q2 + [n2]|..])
        else if q1 + [n1] <= cs then Walk(files, root, q2 + [n2] + cs[|q1 + [n1]|..]) else Walk(files, root, cs)
    {
      SwappedWalk(files, files', root, q1, n1, q2, n2, cs);
    }
  }

  /** A rename onto an existing name leaves the inode of that name without a path. */
  lemma ReplacedUnreachable(files: map<int, FileRec>, files': map<int, FileRec>, root: Word, p1: Comps, p2: Comps,
          w: Word)
    requires Single(files, root) && PathMoved(files, files', root, p1, p2) && NoDots(p1) && NoDots(p2)
    requires Walk(files, root, p2) == Some(w) && !(p1 <= p2)
    ensures Unreachable(files', root, w)
  {
    hide Walk, Single;
    forall cs | NoDots(cs) && Walk(files', root, cs).Some?
      ensures Walk(files', root, cs).value != w
    {
      if Walk(files', root, cs) == Some(w) {
        SingleOnce(files, root, if p2 <= cs then p1 + cs[|p2|..] else cs, p2);
      }
    }
  }

  /** An inode whose path is gone has no other. */
  lemma GoneUnreachable(files: map<int, FileRec>, files': map<int, FileRec>, root: Word, p: Comps, v: Word)
    requires Single(files, root) && PathGone(files, files', root, p) && NoDots(p) && Walk(files, root, p) == Some(v)
    ensures Unreachable(files', root, v)
  {
    hide Walk, Single;
    forall cs | NoDots(cs) && Walk(files', root, cs).Some?
      ensures Walk(files', root, cs).value != v
    {
      if Walk(files, root, cs) == Some(v) { SingleOnce(files, root, cs, p); }
    }
  }
}
