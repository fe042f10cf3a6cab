/** Path resolution with and without the cache. */
module Resolver {
  import opened Blocks
  import opened Paths
  import opened PathCache
  import opened DirEntries
  import opened DirScan
  import opened Files
  import opened Namespace
  import opened Wrappers

  /** The components a path stands for. */
  ghost function PathComps(path: Str): Comps
    requires |path| > 0 && path[0] == SLASH
  {
    if path == [SLASH] then [] else Parts(WithoutEndSlash(path)[1..])
  }

  /** Components as a file system is given them: names, none of them "." or "..". */
  ghost predicate Proper(cs: Comps) {
    NoDots(cs) && forall i | 0 <= i < |cs| :: IsName(cs[i])
  }

  ghost predicate ProperPath(path: Str) {
    |path| > 0 && path[0] == SLASH ==> Proper(PathComps(path))
  }

  /** The components of a path: none of "/", and otherwise those between its slashes, with
      or without one at the end. */
  lemma CompsIs(s: Str)
    requires |s| > 0 && s[|s| - 1] != 47
    ensures PathComps([47]) == [] && PathComps([47] + s) == Parts(s) && PathComps([47] + s + [47]) == Parts(s)
  {
    hide Parts;
    assert WithoutEndSlash([47] + s)[1..] == s;
    assert WithoutEndSlash([47] + s + [47])[1..] == s;
  }

  class PathResolver {
    const fs: FileTable
    const root: Word
    const cache: Clock

    constructor (fs: FileTable, root: Word, maxSize: nat)
      ensures this.fs == fs && this.root == root && fresh(cache) && Good()
    {
      this.fs, this.root := fs, root;
      cache := new Clock(maxSize);
      new;
      assert Pairs([]) == {};
    }

    /** Every cached entry says where its key leads. */
    ghost predicate Good()
      reads this, fs, cache
    {
      cache.Valid() && PairsRight(fs.files, root, Pairs(cache.items))
    }

    method ResolveNoCache(path: Str, atEnd: bool) returns (r: Option<Word>)
      requires TableOk(fs.files, root) && ProperPath(path)
      ensures r == if |path| == 0 || path[0] != 47 then None else Walk(fs.files, root, PathComps(path))
    {
      hide Parts, Walk, TableOk;
      if |path| == 0 || path[0] != SLASH { return None; }
      if path == [SLASH] { RootTarget(fs.files, root); return Some(root); }
      var vec := Split(WithoutEndSlash(path)[1..], false);
      RootTarget(fs.files, root);
      var cur, i := root, 0;
      while i < |vec|
        invariant 0 <= i <= |vec| && Walk(fs.files, root, vec[..i]) == Some(cur)
      {
        var next := Step(cur, vec, i, atEnd);
        if next.None? { return None; }
        cur := next.value;
        i := i + 1;
      }
      assert vec[..i] == vec;
      r := Some(cur);
    }

    /** One lookup on the way. */
    method Step(cur: Word, vec: Comps, i: nat, atEnd: bool) returns (next: Option<Word>)
      requires TableOk(fs.files, root) && i < |vec| && IsName(vec[i]) && Walk(fs.files, root, vec[..i]) == Some(cur)
      ensures next == Walk(fs.files, root, vec[..i + 1])
      ensures next.None? ==> Walk(fs.files, root, vec) == None
    {
      hide Names, DirBytes, IsName;
      WalkClosed(fs.files, root, vec[..i]);
      assert vec[..i + 1][..i] == vec[..i];
      next := fs.Find(cur, vec[i], atEnd);
      if next.None? && Walk(fs.files, root, vec).Some? {
        WalkPrefix(fs.files, root, vec, i + 1);
      }
    }

    /** The longest cached prefix of a path, and where it leads. */
    method LookupPrefixes(cacheVec: seq<Str>, ghost vec: Comps) returns (cur: Word, idx: nat)
      requires Good() && AllPlain(vec) && cacheVec == Prefixes(vec)
      modifies cache
      ensures Good() && Pairs(cache.items) == Pairs(old(cache.items))
      ensures idx <= |vec| && Walk(fs.files, root, vec[..idx]) == Some(cur)
      ensures idx > 0 ==> (Join(vec[..idx]), cur) in Pairs(cache.items)
      ensures forall n | idx < n <= |vec| :: forall v :: (Join(vec[..n]), v) !in Pairs(cache.items)
    {
      hide Parts, Walk, Pairs, NoDots, AllPlain;
      RootTarget(fs.files, root);
      cur, idx := root, 0;
      var i := 0;
      while i < |cacheVec|
        invariant 0 <= i <= |vec| && idx <= |vec| && Walk(fs.files, root, vec[..idx]) == Some(cur)
        invariant cache.Valid() && Pairs(cache.items) == Pairs(old(cache.items))
        invariant idx > 0 ==> (Join(vec[..idx]), cur) in Pairs(cache.items)
        invariant idx <= i && forall n | idx < n <= i :: forall v :: (Join(vec[..n]), v) !in Pairs(cache.items)
      {
        var it := cache.Find(cacheVec[i]);
        if it.None? { NoPair(cache.items, cacheVec[i]); }
        if it.Some? {
          KeyComps(vec, i + 1);
          cur := it.value;
          idx := i + 1;
        }
        i := i + 1;
      }
    }

    /** One lookup past the cached prefix; what it finds is entered. */
    method StepAndRemember(cur: Word, vec: Comps, key: Str, i: nat, atEnd: bool) returns (next: Option<Word>)
      requires TableOk(fs.files, root) && Good() && i < |vec| && IsName(vec[i])
      requires Walk(fs.files, root, vec[..i]) == Some(cur)
      requires AllPlain(vec) && NoDots(vec) && key == Join(vec[..i + 1])
      modifies cache
      ensures Good() && next == Walk(fs.files, root, vec[..i + 1])
      ensures next.None? ==> Walk(fs.files, root, vec) == None
      ensures next.Some? ==> (key, next.value) in Pairs(cache.items)
    {
      hide Parts, Walk, TableOk, Pairs, NoDots, AllPlain, Swept, IsName;
      next := Step(cur, vec, i, atEnd);
      if next.Some? {
        KeyComps(vec, i + 1);
        ProperPrefix(vec, i + 1);
        cache.Remember(key, next.value);
      }
    }

    /** Resolution through the cache gives what resolution without it gives; every
        component looked up on the way is entered. */
    method Resolve(path: Str, atEnd: bool) returns (r: Option<Word>)
      requires TableOk(fs.files, root) && ProperPath(path) && Good()
      modifies cache
      ensures Good() && r == if |path| == 0 || path[0] != 47 then None else Walk(fs.files, root, PathComps(path))
      ensures r.Some? && path != [SLASH] ==> (Join(PathComps(path)), r.value) in Pairs(cache.items)
    {
      hide Parts, Walk, TableOk, Pairs, NoDots, AllPlain, Join;
      if |path| == 0 || path[0] != SLASH { return None; }
      if path == [SLASH] { RootTarget(fs.files, root); return Some(root); }
      var s := WithoutEndSlash(path)[1..];
      var pathVec := Split(s, false);
      var cacheVec := Split(s, true);
      PlainParts(s);
      var cur, i := LookupPrefixes(cacheVec, pathVec);
      while i < |pathVec|
        invariant 0 <= i <= |pathVec| && Walk(fs.files, root, pathVec[..i]) == Some(cur) && Good()
        invariant i > 0 ==> (Join(pathVec[..i]), cur) in Pairs(cache.items)
      {
        var next := StepAndRemember(cur, pathVec, cacheVec[i], i, atEnd);
        if next.None? { return None; }
        cur := next.value;
        i := i + 1;
      }
      assert pathVec[..i] == pathVec;
      r := Some(cur);
    }

    /** Drops the keys that start with a path, given without regard to its slashes. */
    method RemovePrefix(prefix: Str)
      requires |prefix| > 1 && prefix[0] == SLASH && cache.Valid()
      modifies cache
      ensures cache.Valid()
      ensures Pairs(cache.items) == (set p | p in Pairs(old(cache.items)) && !(WithoutEndSlash(prefix)[1..] <= p.0))
    {
      cache.RemovePrefix(WithoutEndSlash(prefix)[1..]);
    }
  }

  lemma RootTarget(files: map<int, FileRec>, root: Word)
    ensures Walk(files, root, []) == Some(root)
    ensures forall cs: Comps :: Walk(files, root, cs[..0]) == Some(root)
  {}

  lemma NoPair(items: seq<Item>, key: Str)
    requires forall it | it in items :: it.key != key
    ensures forall v :: (key, v) !in Pairs(items)
  {}

  lemma PlainParts(s: Str)
    ensures AllPlain(Parts(s)) && |Parts(s)| > 0
  {}

  /** The cache key of the first n components has those components. */
  lemma KeyComps(cs: Comps, n: nat)
    requires AllPlain(cs) && 0 < n <= |cs|
    ensures Parts(Join(cs[..n])) == cs[..n]
  {
    PartsJoin(cs[..n]);
  }

  lemma ProperPrefix(cs: Comps, n: nat)
    requires NoDots(cs) && n <= |cs|
    ensures NoDots(cs[..n])
  {}
}
