/** Paths as byte strings, their components, and their prefixes at component ends. */
module Paths {
  import opened Blocks

  type Str = seq<byte>

  const SLASH: byte := 47

  ghost predicate Plain(c: Str) {
    SLASH !in c
  }

  ghost predicate AllPlain(cs: seq<Str>) {
    forall i | 0 <= i < |cs| :: Plain(cs[i])
  }

  /** The components with slashes between them. */
  ghost function Join(cs: seq<Str>): Str {
    if |cs| == 0 then [] else if |cs| == 1 then cs[0] else Join(cs[..|cs| - 1]) + [SLASH] + cs[|cs| - 1]
  }

  /** Position of the first slash from `start` on, |s| if there is none. */
  function FirstSlash(s: Str, start: nat): (e: nat)
    requires start <= |s|
    ensures start <= e <= |s| && (e < |s| ==> s[e] == SLASH)
    ensures forall k | start <= k < e :: s[k] != SLASH
    decreases |s| - start
  {
    if start == |s| || s[start] == SLASH then start else FirstSlash(s, start + 1)
  }

  /** removeEndSlash */
  function WithoutEndSlash(path: Str): Str {
    if |path| > 0 && path[|path| - 1] == SLASH then path[..|path| - 1] else path
  }

  /** cs are the components of s. */
  ghost predicate Splits(s: Str, cs: seq<Str>) {
    |cs| > 0 && AllPlain(cs) && Join(cs) == s
  }

  /** The components of a string. */
  ghost function Parts(s: Str): seq<Str>
    decreases |s|
  {
    var e := FirstSlash(s, 0);
    if e == |s| then [s] else [s[..e]] + Parts(s[e + 1..])
  }

  /** The prefixes of a string that end where its components do. */
  ghost function Prefixes(cs: seq<Str>): (r: seq<Str>)
    ensures |r| == |cs| && forall i | 0 <= i < |cs| :: r[i] == Join(cs[..i + 1])
  {
    seq(|cs|, i requires 0 <= i < |cs| => Join(cs[..i + 1]))
  }

  /** parts are the components of s before position start. */
  ghost predicate SplitTo(s: Str, parts: seq<Str>, start: nat) {
    && start <= |s| && AllPlain(parts)
    && if |parts| == 0 then start == 0 else start > 0 && Join(parts) + [SLASH] == s[..start]
  }

  /** split: the components, or with reservePrev the prefixes that end with them. */
  method Split(s: Str, reservePrev: bool) returns (r: seq<Str>)
    ensures r == if reservePrev then Prefixes(Parts(s)) else Parts(s)
  {
    hide Parts, Join, Prefixes, AllPlain;
    ghost var parts: seq<Str> := [];
    PrefixesNone();
    r := [];
    var start := 0;
    var end := FirstSlash(s, 0);
    while end < |s|
      invariant 0 <= start <= end <= |s| && end == FirstSlash(s, start) && SplitTo(s, parts, start)
      invariant r == if reservePrev then Prefixes(parts) else parts
      decreases |s| - start
    {
      SplitNext(s, parts, start, end);
      r := r + [if reservePrev then s[..end] else s[start..end]];
      parts := parts + [s[start..end]];
      start := end + 1;
      end := FirstSlash(s, start);
    }
    SplitLast(s, parts, start);
    r := r + [if reservePrev then s else s[start..]];
  }

  lemma PrefixesNone()
    ensures Prefixes([]) == [] && AllPlain([])
  {}

  lemma SplitNext(s: Str, parts: seq<Str>, start: nat, end: nat)
    requires SplitTo(s, parts, start) && start <= end < |s| && end == FirstSlash(s, start)
    ensures SplitTo(s, parts + [s[start..end]], end + 1)
    ensures Prefixes(parts + [s[start..end]]) == Prefixes(parts) + [s[..end]]
  {
    Extend(s, parts, start, end);
    PrefixesExtend(parts, s[start..end], s[..end]);
    assert s[..end + 1] == s[..end] + [SLASH];
  }

  lemma SplitLast(s: Str, parts: seq<Str>, start: nat)
    requires SplitTo(s, parts, start) && FirstSlash(s, start) == |s|
    ensures Parts(s) == parts + [s[start..]]
    ensures Prefixes(Parts(s)) == Prefixes(parts) + [s]
  {
    Extend(s, parts, start, |s|);
    assert s[..|s|] == s && s[start..|s|] == s[start..];
    PrefixesExtend(parts, s[start..], s);
    PartsSplit(s);
    SplitsOnce(s, parts + [s[start..]], Parts(s));
  }

  lemma {:induction false} PartsSplit(s: Str)
    ensures Splits(s, Parts(s))
    decreases |s|
  {
    var e := FirstSlash(s, 0);
    if e < |s| {
      PartsSplit(s[e + 1..]);
      JoinFront(s[..e], Parts(s[e + 1..]));
      assert s == s[..e] + [SLASH] + s[e + 1..];
    }
  }

  lemma {:induction false} JoinFront(c: Str, cs: seq<Str>)
    requires |cs| > 0
    ensures Join([c] + cs) == c + [SLASH] + Join(cs)
    decreases |cs|
  {
    hide Join;
    var front, last := cs[..|cs| - 1], cs[|cs| - 1];
    assert cs == front + [last] && [c] + cs == [c] + front + [last];
    JoinBack([c] + front, last);
    JoinBack(front, last);
    if |cs| > 1 {
      JoinFront(c, front);
    } else {
      assert [c] + front == [] + [c];
      JoinBack([], c);
    }
  }

  /** The components of a joined list are the list. */
  lemma PartsJoin(cs: seq<Str>)
    requires |cs| > 0 && AllPlain(cs)
    ensures Parts(Join(cs)) == cs
  {
    PartsSplit(Join(cs));
    SplitsOnce(Join(cs), Parts(Join(cs)), cs);
  }

  lemma Extend(s: Str, parts: seq<Str>, start: nat, end: nat)
    requires start <= end <= |s| && forall k | start <= k < end :: s[k] != SLASH
    requires AllPlain(parts) && if |parts| == 0 then start == 0 else start > 0 && Join(parts) + [SLASH] == s[..start]
    ensures AllPlain(parts + [s[start..end]]) && Join(parts + [s[start..end]]) == s[..end]
  {
    hide Join, AllPlain, Plain;
    var c := s[start..end];
    PlainSlice(s, start, end);
    PlainMore(parts, c);
    JoinBack(parts, c);
    assert s[..start] + c == s[..end];
  }

  lemma PlainSlice(s: Str, start: nat, end: nat)
    requires start <= end <= |s| && forall k | start <= k < end :: s[k] != SLASH
    ensures Plain(s[start..end])
  {}

  lemma PlainMore(cs: seq<Str>, c: Str)
    requires AllPlain(cs) && Plain(c)
    ensures AllPlain(cs + [c])
  {}

  lemma JoinBack(cs: seq<Str>, c: Str)
    ensures Join(cs + [c]) == if |cs| == 0 then c else Join(cs) + [SLASH] + c
  {}

  lemma PrefixesExtend(parts: seq<Str>, c: Str, s: Str)
    requires Join(parts + [c]) == s
    ensures Prefixes(parts + [c]) == Prefixes(parts) + [s]
  {
    hide Join;
    var all := parts + [c];
    forall i | 0 <= i < |all|
      ensures Prefixes(all)[i] == (Prefixes(parts) + [s])[i]
    {
      if i < |parts| {
        assert all[..i + 1] == parts[..i + 1];
      } else {
        assert all[..i + 1] == all;
      }
    }
  }

  /** A string has one list of components. */
  lemma {:induction false} SplitsOnce(s: Str, a: seq<Str>, b: seq<Str>)
    requires Splits(s, a) && Splits(s, b)
    ensures a == b
    decreases |a|
  {
    var x, y := a[|a| - 1], b[|b| - 1];
    if |a| == 1 && |b| == 1 {
      assert a == [x] && b == [y];
    } else if |a| == 1 {
      LastSlash(b);
    } else if |b| == 1 {
      LastSlash(a);
    } else {
      SameTail(Join(a[..|a| - 1]), x, Join(b[..|b| - 1]), y);
      SplitsOnce(Join(a[..|a| - 1]), a[..|a| - 1], b[..|b| - 1]);
      assert a == a[..|a| - 1] + [x] && b == b[..|b| - 1] + [y];
    }
  }

  lemma LastSlash(cs: seq<Str>)
    requires |cs| > 1
    ensures SLASH in Join(cs)
  {}

  lemma SameTail(p: Str, x: Str, q: Str, y: Str)
    requires Plain(x) && Plain(y) && p + [SLASH] + x == q + [SLASH] + y
    ensures p == q && x == y
  {
    var s := p + [SLASH] + x;
    AfterLast(p, x);
    AfterLast(q, y);
    assert s[|p|] == SLASH && s[|q|] == SLASH;
    assert s[..|p|] == p && s[..|q|] == q;
    assert s[|p| + 1..] == x && s[|q| + 1..] == y;
  }

  lemma AfterLast(p: Str, x: Str)
    requires Plain(x)
    ensures forall k | |p| < k < |p + [SLASH] + x| :: (p + [SLASH] + x)[k] != SLASH
  {}

  /** A component prefix is a string prefix. */
  lemma {:induction false} JoinPrefix(cs: seq<Str>, n: nat)
    requires 0 < n <= |cs|
    ensures Join(cs[..n]) <= Join(cs)
    decreases |cs|
  {
    if n == |cs| {
      assert cs[..n] == cs;
    } else {
      JoinPrefix(cs[..|cs| - 1], n);
      assert cs[..|cs| - 1][..n] == cs[..n];
    }
  }

  /** Components and prefixes of a string without recursion: no component has the byte 47,
      each prefix is the one before it, a 47 and one more component, and the last prefix
      is the string. */
  lemma PrefixSteps(s: Str)
    ensures |Parts(s)| == |Prefixes(Parts(s))| > 0
    ensures forall i | 0 <= i < |Parts(s)| :: 47 !in Parts(s)[i]
    ensures Prefixes(Parts(s))[0] == Parts(s)[0] && Prefixes(Parts(s))[|Parts(s)| - 1] == s
    ensures forall i | 0 < i < |Parts(s)| ::
      Prefixes(Parts(s))[i] == Prefixes(Parts(s))[i - 1] + [47] + Parts(s)[i]
  {
    hide Parts, Join;
    PartsSplit(s);
    var cs := Parts(s);
    forall i | 0 <= i < |cs|
      ensures Prefixes(cs)[i] == if i == 0 then cs[0] else Join(cs[..i]) + [47] + cs[i]
    {
      assert cs[..i + 1] == cs[..i] + [cs[i]];
      JoinBack(cs[..i], cs[i]);
    }
    assert cs[..|cs|] == cs;
  }
}
