/** The byte form of a directory: a packed array of 256-byte entries, each a
    NUL-terminated name of at most 251 bytes and an inode number. */
module DirEntries {
  import opened Blocks

  const NAME_MAX: nat := 251
  const ENTRY: nat := 256
  const SLOTS: nat := 16            // entries in a block

  datatype Entry = Entry(name: seq<byte>, inode: Word)

  /** A name that a caller can pass: a C string that is not empty. */
  predicate IsName(name: seq<byte>) {
    |name| > 0 && 0 !in name
  }

  /** The C string at the start of a buffer. */
  function CStr(b: seq<byte>): seq<byte> {
    if b == [] || b[0] == 0 then [] else [b[0]] + CStr(b[1..])
  }

  function Zeros(n: nat): (z: seq<byte>)
    ensures |z| == n
  {
    seq(n, _ => 0)
  }

  /** The part of a name that an entry keeps. */
  function Trunc(name: seq<byte>): seq<byte> {
    if |name| <= NAME_MAX then name else name[..NAME_MAX]
  }

  /** strncpy of at most 251 bytes into a zeroed field of 252. */
  function NameField(name: seq<byte>): (r: seq<byte>)
    ensures |r| == 252
  {
    Trunc(name) + Zeros(252 - |Trunc(name)|)
  }

  function WordBytes(w: Word): seq<byte> {
    [w % 0x100, w / 0x100 % 0x100, w / 0x1_0000 % 0x100, w / 0x100_0000]
  }

  function BytesWord(b: seq<byte>): Word
    requires |b| == 4
  {
    var b0: int, b1: int, b2: int, b3: int := b[0], b[1], b[2], b[3];
    b0 + 0x100 * b1 + 0x1_0000 * b2 + 0x100_0000 * b3
  }

  /** DirEntry(name, inode). */
  function Pack(name: seq<byte>, inode: Word): (r: seq<byte>)
    ensures |r| == ENTRY
  {
    NameField(name) + WordBytes(inode)
  }

  function Unpack(b: seq<byte>): Entry
    requires |b| == ENTRY
  {
    Entry(CStr(b[..252]), BytesWord(b[252..]))
  }

  lemma {:induction false} CStrOfField(name: seq<byte>, n: nat)
    requires 0 !in name && n > 0
    ensures CStr(name + Zeros(n)) == name
  {
    if name == [] {
      assert name + Zeros(n) == Zeros(n);
    } else {
      assert (name + Zeros(n))[0] == name[0] && name[0] in name;
      assert (name + Zeros(n))[1..] == name[1..] + Zeros(n);
      CStrOfField(name[1..], n);
    }
  }

  /** An entry reads back with the first 251 bytes of its name, and so as it was made
      exactly when the name fits. */
  lemma PackUnpack(name: seq<byte>, inode: Word)
    requires 0 !in name
    ensures Unpack(Pack(name, inode)) == Entry(Trunc(name), inode)
    ensures Unpack(Pack(name, inode)) == Entry(if |name| <= 251 then name else name[..251], inode)
    ensures Unpack(Pack(name, inode)).name == name <==> |name| <= 251
  {
    var b := Pack(name, inode);
    var n := Trunc(name);
    assert b[..252] == n + Zeros(252 - |n|) && b[252..] == WordBytes(inode);
    CStrOfField(n, 252 - |n|);
    SplitWord(inode);
  }

  /** The k-th entry of the bytes of a directory. */
  function EntryAt(c: seq<byte>, k: nat): Entry
    requires (k + 1) * ENTRY <= |c|
  {
    Unpack(c[k * ENTRY..(k + 1) * ENTRY])
  }

  /** An entry from its 256 bytes: a name that ends at the first zero byte, and at 252 the
      inode, low byte first. */
  lemma EntryBytes(c: seq<byte>, k: nat)
    requires (k + 1) * ENTRY <= |c|
    ensures 256 * k + 256 <= |c|
    ensures var n := EntryAt(c, k).name;
      |n| <= 252 && n == c[256 * k..256 * k + |n|] && 0 !in n && (|n| < 252 ==> c[256 * k + |n|] == 0)
    ensures EntryAt(c, k).inode as int == c[256 * k + 252] as int + 0x100 * (c[256 * k + 253] as int) +
      0x1_0000 * (c[256 * k + 254] as int) + 0x100_0000 * (c[256 * k + 255] as int)
  {
    hide CStr;
    var o := 256 * k;
    var b := c[o..o + 256];
    assert b == c[k * ENTRY..(k + 1) * ENTRY];
    CStrEnds(b[..252]);
    var n := CStr(b[..252]);
    assert forall j | 0 <= j < 256 :: b[j] == c[o + j];
    assert |n| <= 252 && n == b[..252][..|n|];
    forall j | 0 <= j < |n|
      ensures n[j] == c[o..o + |n|][j]
    {
      assert n[j] == b[..252][..|n|][j] == b[j];
    }
    assert forall j | 0 <= j < 4 :: b[252..][j] == b[252 + j];
  }

  lemma {:induction false} CStrEnds(b: seq<byte>)
    ensures var n := CStr(b); |n| <= |b| && n == b[..|n|] && 0 !in n && (|n| < |b| ==> b[|n|] == 0)
  {
    if b != [] && b[0] != 0 { CStrEnds(b[1..]); }
  }

  /** All entries, in order. */
  ghost function Entries(c: seq<byte>): (es: seq<Entry>)
    ensures |es| == |c| / ENTRY
    ensures forall k | 0 <= k < |es| :: es[k] == EntryAt(c, k)
  {
    seq(|c| / ENTRY, k requires 0 <= k < |c| / ENTRY => EntryAt(c, k))
  }

  /** Overwriting one entry in place. */
  lemma EntriesUpdate(c: seq<byte>, c': seq<byte>, k: nat, e: seq<byte>)
    requires |c| % ENTRY == 0 && (k + 1) * ENTRY <= |c| && |e| == ENTRY
    requires c' == c[..k * ENTRY] + e + c[(k + 1) * ENTRY..]
    ensures Entries(c') == Entries(c)[k := Unpack(e)]
  {
    hide Unpack;
    forall j | 0 <= j < |c| / ENTRY
      ensures c'[j * ENTRY..(j + 1) * ENTRY] == if j == k then e else c[j * ENTRY..(j + 1) * ENTRY]
    {
      if j < k {
        assert (j + 1) * ENTRY <= k * ENTRY;
      } else if j > k {
        assert (k + 1) * ENTRY <= j * ENTRY;
      }
    }
  }

  /** Cutting off the last entry. */
  lemma EntriesShrink(c: seq<byte>, c': seq<byte>)
    requires |c| % ENTRY == 0 && |c| >= ENTRY && c' == c[..|c| - ENTRY]
    ensures Entries(c') == Entries(c)[..|c| / ENTRY - 1]
  {
    hide Unpack;
    forall j | 0 <= j < |c'| / ENTRY
      ensures c'[j * ENTRY..(j + 1) * ENTRY] == c[j * ENTRY..(j + 1) * ENTRY]
    {}
  }

  /** Adding an entry at the end. */
  lemma EntriesAppend(c: seq<byte>, e: seq<byte>)
    requires |c| % ENTRY == 0 && |e| == ENTRY
    ensures Entries(c + e) == Entries(c) + [Unpack(e)]
  {
    hide Unpack;
    var c', n := c + e, |c| / ENTRY;
    assert |c'| / ENTRY == n + 1;
    forall j | 0 <= j < n
      ensures c'[j * ENTRY..(j + 1) * ENTRY] == c[j * ENTRY..(j + 1) * ENTRY]
    {}
    assert c'[n * ENTRY..(n + 1) * ENTRY] == e;
  }

  /** No two entries have the same name. */
  ghost predicate Unique(es: seq<Entry>) {
    forall i, j | 0 <= i < j < |es| :: es[i].name != es[j].name
  }

  /** The finite map a list of entries stands for (the first entry of a name counts). */
  ghost function Bindings(es: seq<Entry>): map<seq<byte>, Word> {
    if es == [] then map[] else Bindings(es[1..])[es[0].name := es[0].inode]
  }

  ghost predicate Has(es: seq<Entry>, name: seq<byte>) {
    exists k :: 0 <= k < |es| && es[k].name == name
  }

  lemma {:induction false} BindingsHas(es: seq<Entry>, name: seq<byte>)
    ensures name in Bindings(es) <==> Has(es, name)
  {
    if es != [] {
      BindingsHas(es[1..], name);
      if Has(es, name) && es[0].name != name {
        var k :| 0 <= k < |es| && es[k].name == name;
        assert es[1..][k - 1].name == name;
      }
      if Has(es[1..], name) {
        var k :| 0 <= k < |es[1..]| && es[1..][k].name == name;
        assert es[k + 1].name == name;
      }
    }
  }

  /** A binding is that of the first entry with the name. */
  lemma {:induction false} BindingsFirst(es: seq<Entry>, k: nat)
    requires k < |es| && forall j | 0 <= j < k :: es[j].name != es[k].name
    ensures es[k].name in Bindings(es) && Bindings(es)[es[k].name] == es[k].inode
  {
    if k > 0 {
      BindingsFirst(es[1..], k - 1);
    }
  }

  /** The list after deletion of entry k: the last one takes its place. */
  ghost function SwapOut(es: seq<Entry>, k: nat): seq<Entry>
    requires k < |es|
  {
    es[k := es[|es| - 1]][..|es| - 1]
  }

  /** Swap-with-last deletes exactly one binding and keeps names unique. */
  lemma SwapOutBindings(es: seq<Entry>, k: nat)
    requires k < |es| && Unique(es)
    ensures Unique(SwapOut(es, k))
    ensures Bindings(SwapOut(es, k)) == Bindings(es) - {es[k].name}
  {
    hide Bindings, SwapOut, Has, Unique;
    SwapOutUnique(es, k);
    var a, b := Bindings(SwapOut(es, k)), Bindings(es) - {es[k].name};
    forall name
      ensures name in a <==> name in b
      ensures name in a ==> a[name] == b[name]
    {
      SwapOutOne(es, k, name);
    }
    assert a.Keys == b.Keys;
  }

  lemma SwapOutUnique(es: seq<Entry>, k: nat)
    requires k < |es| && Unique(es)
    ensures Unique(SwapOut(es, k))
  {}

  lemma BindingsAt(es: seq<Entry>, k: nat)
    requires k < |es| && Unique(es)
    ensures es[k].name in Bindings(es) && Bindings(es)[es[k].name] == es[k].inode
  {
    BindingsFirst(es, k);
  }

  /** The position of a binding. */
  lemma BindingsIndex(es: seq<Entry>, name: seq<byte>) returns (k: nat)
    requires name in Bindings(es)
    ensures k < |es| && es[k].name == name
  {
    BindingsHas(es, name);
    k :| 0 <= k < |es| && es[k].name == name;
  }

  lemma SwapOutOne(es: seq<Entry>, k: nat, name: seq<byte>)
    requires k < |es| && Unique(es)
    ensures name in Bindings(SwapOut(es, k)) <==> name in Bindings(es) && name != es[k].name
    ensures name in Bindings(SwapOut(es, k)) ==> Bindings(SwapOut(es, k))[name] == Bindings(es)[name]
  {
    hide Bindings, Unique;
    var r, n := SwapOut(es, k), |es|;
    SwapOutUnique(es, k);
    if name in Bindings(r) {
      var i := BindingsIndex(r, name);
      BindingsAt(r, i);
      BindingsAt(es, if i == k then n - 1 else i);
      Differ(es, k, if i == k then n - 1 else i);
    }
    if name in Bindings(es) && name != es[k].name {
      var j := BindingsIndex(es, name);
      BindingsAt(r, if j == n - 1 then k else j);
    }
  }

  lemma Differ(es: seq<Entry>, i: nat, j: nat)
    requires Unique(es) && i < |es| && j < |es| && i != j
    ensures es[i].name != es[j].name
  {}

  /** A new entry at the end adds its binding exactly when the name is new; otherwise
      the map does not change, and the older entry is the one found. */
  lemma AppendBindings(es: seq<Entry>, e: Entry)
    ensures Bindings(es + [e]) == if e.name in Bindings(es) then Bindings(es) else Bindings(es)[e.name := e.inode]
    ensures Unique(es + [e]) <==> Unique(es) && e.name !in Bindings(es)
  {
    var r := es + [e];
    AppendMap(es, e);
    BindingsHas(es, e.name);
    if Unique(r) {
      forall i, j | 0 <= i < j < |es|
        ensures es[i].name != es[j].name
      {
        assert r[i].name != r[j].name;
      }
      forall k | 0 <= k < |es|
        ensures es[k].name != e.name
      {
        assert r[k].name != r[|es|].name;
      }
    }
  }

  lemma {:induction false} AppendMap(es: seq<Entry>, e: Entry)
    ensures Bindings(es + [e]) == if e.name in Bindings(es) then Bindings(es) else Bindings(es)[e.name := e.inode]
  {
    if es == [] {
      assert es + [e] == [e] && [e][1..] == [];
    } else {
      AppendMap(es[1..], e);
      assert (es + [e])[1..] == es[1..] + [e];
    }
  }

  /** Redirecting entry k in place rebinds its name and nothing else. */
  lemma {:induction false} RebindBindings(es: seq<Entry>, k: nat, inode: Word)
    requires k < |es| && Unique(es)
    ensures Unique(es[k := Entry(es[k].name, inode)])
    ensures Bindings(es[k := Entry(es[k].name, inode)]) == Bindings(es)[es[k].name := inode]
  {
    var r := es[k := Entry(es[k].name, inode)];
    if k == 0 {
      assert r[1..] == es[1..];
    } else {
      RebindBindings(es[1..], k - 1, inode);
      assert r[1..] == es[1..][k - 1 := Entry(es[k].name, inode)];
    }
  }
}
