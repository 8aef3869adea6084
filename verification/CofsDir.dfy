/**
Directories: a directory file is a row of 32-byte entries, an inode number and a
name of at most 28 bytes. It represents a finite map from names to inode numbers, and
find, link and unlink do to the bytes what they do to the map.
*/
module CofsDir {
  import opened Block
  import opened CofsLayout
  import opened Cofs

  const DIRSIZE := 28
  const ENTRY := 32
  const ROOT_INUM := 1

  type Name = seq<byte>

  datatype Outcome = Code(code: int) | Panicked(why: Panic) | Assertion

  // ---- strings -------------------------------------------------------------

  // The string a C program sees in a buffer: everything before the first zero byte.
  function CStr(s: seq<byte>): (r: seq<byte>)
    ensures |r| <= |s| && r == s[..|r|] && 0 !in r
    ensures |r| < |s| ==> s[|r|] == 0
  {
    if s == [] || s[0] == 0 then [] else [s[0]] + CStr(s[1..])
  }

  function Zeros(n: nat): (r: seq<byte>)
    ensures |r| == n && forall i :: 0 <= i < n ==> r[i] == 0
  {
    if n == 0 then [] else [0] + Zeros(n - 1)
  }

  // strncpy into a name field.
  function Padded(name: Name): (r: seq<byte>)
    ensures |r| == DIRSIZE
  {
    if |name| < DIRSIZE then name + Zeros(DIRSIZE - |name|) else name[..DIRSIZE]
  }

  lemma {:induction false} CStrOfPrefix(s: seq<byte>, n: nat)
    requires n < |s| && s[n] == 0 && 0 !in s[..n]
    ensures CStr(s) == s[..n]
  {
    if n > 0 {
      assert s[..n][0] == s[0];
      assert s[1..][..n - 1] == s[..n][1..];
      CStrOfPrefix(s[1..], n - 1);
    }
  }

  /** A name shorter than DIRSIZE survives strncpy into an entry and strcmp back. */
  lemma NameRoundTrip(name: Name)
    requires |name| < DIRSIZE && 0 !in name
    ensures CStr(Padded(name)) == name
  {
    assert Padded(name)[..|name|] == name;
    CStrOfPrefix(Padded(name), |name|);
  }

  // ---- entries -------------------------------------------------------------

  function Raw(c: seq<byte>, k: nat): (e: Entry)
    requires (k + 1) * ENTRY <= |c|
  {
    c[k * ENTRY..(k + 1) * ENTRY]
  }

  function InumOf(e: Entry): nat {
    var b0: int, b1: int, b2: int, b3: int := e[0], e[1], e[2], e[3];
    b0 + 0x100 * b1 + 0x1_0000 * b2 + 0x100_0000 * b3
  }

  function NameOf(e: Entry): Name {
    CStr(e[4..])
  }

  function Encode(inum: nat, name: Name): (e: Entry)
    requires inum < WORD_LIMIT
  {
    [inum % 0x100, inum / 0x100 % 0x100, inum / 0x1_0000 % 0x100, inum / 0x100_0000] + Padded(name)
  }

  lemma EntryRoundTrip(inum: nat, name: Name)
    requires inum < WORD_LIMIT && |name| < DIRSIZE && 0 !in name
    ensures InumOf(Encode(inum, name)) == inum && NameOf(Encode(inum, name)) == name
  {
    NameRoundTrip(name);
    assert Encode(inum, name)[4..] == Padded(name);
    assert inum / 0x1_0000 == inum / 0x100 / 0x100;
    assert inum / 0x100_0000 == inum / 0x1_0000 / 0x100;
  }

  type Entry = e: seq<byte> | |e| == 32 witness seq(32, _ => 0)

  // The entries of a directory file.
  function Entries(c: seq<byte>): (es: seq<Entry>)
    requires |c| % ENTRY == 0
    ensures |es| == |c| / ENTRY
  {
    seq(|c| / ENTRY, k requires 0 <= k < |c| / ENTRY => Raw(c, k))
  }

  predicate Live(e: Entry) {
    InumOf(e) != 0
  }

  // A free slot has inode 0 and an empty name; a live one has a name that fits with its terminator.
  predicate GoodEntry(e: Entry) {
    if Live(e) then 0 < |NameOf(e)| < DIRSIZE else NameOf(e) == []
  }

  ghost predicate DistinctNames(es: seq<Entry>) {
    forall j, k | 0 <= j < |es| && 0 <= k < |es| && Live(es[j]) && Live(es[k]) ::
      NameOf(es[j]) == NameOf(es[k]) ==> j == k
  }

  // The directory as a finite map from names to inode numbers.
  ghost predicate Represents(es: seq<Entry>, m: map<Name, nat>) {
    && (forall k :: 0 <= k < |es| ==> GoodEntry(es[k]))
    && DistinctNames(es)
    && (forall k :: 0 <= k < |es| && Live(es[k]) ==> NameOf(es[k]) in m && m[NameOf(es[k])] == InumOf(es[k]))
    && (forall x :: x in m ==> exists k :: 0 <= k < |es| && Live(es[k]) && NameOf(es[k]) == x)
  }

  ghost predicate IsDirectory(c: seq<byte>, m: map<Name, nat>) {
    |c| % ENTRY == 0 && Represents(Entries(c), m)
  }

  function Lookup(m: map<Name, nat>, name: Name): nat {
    if name in m then m[name] else 0
  }

  // Entry k was overwritten, or appended at the end.
  function WithEntry(es: seq<Entry>, k: nat, e: Entry): seq<Entry>
    requires k <= |es|
  {
    if k == |es| then es + [e] else es[k := e]
  }

  lemma SpliceEntries(c: seq<byte>, k: nat, e: Entry)
    requires |c| % ENTRY == 0 && k * ENTRY <= |c|
    ensures |Splice(c, k * ENTRY, e)| % ENTRY == 0
    ensures Entries(Splice(c, k * ENTRY, e)) == WithEntry(Entries(c), k, e)
  {
    var s := Splice(c, k * ENTRY, e);
    assert |s| == if k * ENTRY == |c| then |c| + ENTRY else |c|;
    forall j | 0 <= j < |s| / ENTRY ensures Entries(s)[j] == WithEntry(Entries(c), k, e)[j] {
      if j == k {
        assert Raw(s, j) == e;
      } else {
        assert Raw(s, j) == Raw(c, j) by {
          forall i | 0 <= i < ENTRY ensures Raw(s, j)[i] == Raw(c, j)[i] {
          }
        }
      }
    }
  }

  /** Writing a new name into a free or fresh entry adds that binding and touches no other. */
  lemma LinkRepresents(es: seq<Entry>, m: map<Name, nat>, k: nat, e: Entry)
    requires Represents(es, m) && k <= |es| && (k < |es| ==> !Live(es[k]))
    requires Live(e) && GoodEntry(e) && NameOf(e) !in m
    ensures Represents(WithEntry(es, k, e), m[NameOf(e) := InumOf(e)])
  {
    hide InumOf, NameOf;
    var es', m' := WithEntry(es, k, e), m[NameOf(e) := InumOf(e)];
    forall x | x in m' ensures exists j :: 0 <= j < |es'| && Live(es'[j]) && NameOf(es'[j]) == x {
      if x == NameOf(e) {
        assert es'[k] == e;
      } else {
        var j :| 0 <= j < |es| && Live(es[j]) && NameOf(es[j]) == x;
        assert es'[j] == es[j];
      }
    }
  }

  /** Clearing a live entry removes that binding and touches no other. */
  lemma UnlinkRepresents(es: seq<Entry>, m: map<Name, nat>, k: nat, e: Entry)
    requires Represents(es, m) && k < |es| && Live(es[k])
    requires !Live(e) && GoodEntry(e)
    ensures Represents(es[k := e], m - {NameOf(es[k])})
  {
    hide InumOf, NameOf;
    var es', m' := es[k := e], m - {NameOf(es[k])};
    forall x | x in m' ensures exists j :: 0 <= j < |es'| && Live(es'[j]) && NameOf(es'[j]) == x {
      var j :| 0 <= j < |es| && Live(es[j]) && NameOf(es[j]) == x;
      assert es'[j] == es[j];
    }
  }

  // The first free entry, or the end.
  function FirstDead(es: seq<Entry>): (k: nat)
    ensures k <= |es| && (forall j :: 0 <= j < k ==> Live(es[j])) && (k < |es| ==> !Live(es[k]))
  {
    if es == [] || !Live(es[0]) then 0 else 1 + FirstDead(es[1..])
  }

  // The first entry of that name, or the end.
  function FirstNamed(es: seq<Entry>, name: Name): (k: nat)
    ensures k <= |es| && (forall j :: 0 <= j < k ==> NameOf(es[j]) != name) && (k < |es| ==> NameOf(es[k]) == name)
  {
    if es == [] || NameOf(es[0]) == name then 0 else 1 + FirstNamed(es[1..], name)
  }

  // Where in the directory file a new entry goes.
  function LinkOffset(c: seq<byte>): nat
    requires |c| % ENTRY == 0
  {
    FirstDead(Entries(c)) * ENTRY
  }

  // The directory file with a new entry, and with an entry cleared.
  function Linked(c: seq<byte>, name: Name, inum: nat): seq<byte>
    requires |c| % ENTRY == 0 && inum < WORD_LIMIT
  {
    Splice(c, LinkOffset(c), Encode(inum, name))
  }

  function Cleared(c: seq<byte>, name: Name): seq<byte>
    requires |c| % ENTRY == 0
  {
    if ClearOffset(c, name) < |c| then Splice(c, ClearOffset(c, name), Encode(0, [])) else c
  }

  // Where in the directory file an entry stands.
  function ClearOffset(c: seq<byte>, name: Name): (off: nat)
    requires |c| % ENTRY == 0
    ensures off <= |c| && (off < |c| ==> off + ENTRY <= |c|)
    ensures off < |c| <==> FirstNamed(Entries(c), name) < |Entries(c)|
  {
    FirstNamed(Entries(c), name) * ENTRY
  }

  /** On the bytes of a directory, linking a new name adds its binding. */
  lemma LinkedIs(c: seq<byte>, m: map<Name, nat>, name: Name, inum: nat)
    requires IsDirectory(c, m) && name !in m
    requires 0 < |name| < DIRSIZE && 0 !in name && 0 < inum < WORD_LIMIT
    ensures IsDirectory(Linked(c, name, inum), m[name := inum])
    ensures |Linked(c, name, inum)| <= |c| + ENTRY
  {
    hide NameOf, InumOf, Entries, Represents, Encode, Splice;
    var k, e := FirstDead(Entries(c)), Encode(inum, name);
    SpliceEntries(c, k, e);
    SpliceSize(c, k * ENTRY, e);
    EntryGood(inum, name);
    LinkRepresents(Entries(c), m, k, e);
  }

  /** On the bytes of a directory, clearing a name's entry removes its binding. */
  lemma ClearedIs(c: seq<byte>, m: map<Name, nat>, name: Name)
    requires IsDirectory(c, m) && name in m
    ensures IsDirectory(Cleared(c, name), m - {name}) && |Cleared(c, name)| == |c|
    ensures FirstNamed(Entries(c), name) < |Entries(c)|
  {
    hide NameOf, InumOf, Entries, Represents, Encode, Splice;
    var es, k, e := Entries(c), FirstNamed(Entries(c), name), Encode(0, []);
    LookupIn(es, m, name);
    if k == |es| {
      NoneNamed(es, m, name);
    } else {
      NamedLive(es, m, name, k);
      SpliceEntries(c, k, e);
      SpliceSize(c, k * ENTRY, e);
      EntryGood(0, []);
      UnlinkRepresents(es, m, k, e);
    }
  }

  lemma SpliceSize(c: seq<byte>, off: nat, e: seq<byte>)
    requires off <= |c|
    ensures |Splice(c, off, e)| == if off + |e| > |c| then off + |e| else |c|
  {
  }

  // ---- operations ----------------------------------------------------------

  datatype Scan = At(k: nat, inum: nat) | NotFound(slots: nat) | Failed(why: Panic)

  ghost function Dir(fs: FileSystem, dino: nat): (c: seq<byte>)
    requires dino in fs.nodes
    reads fs
  {
    Content(fs.disk, fs.nodes[dino])
  }

  ghost predicate IsDense(disk: Disk, nodes: map<nat, Inode>, ino: nat) {
    ino in nodes && Dense(disk, nodes[ino], Blocks(nodes[ino].size))
  }

  // Reads entry k; 0 bytes come back at the end of the directory.
  method ReadEntry(fs: FileSystem, dino: nat, k: nat) returns (r: Result<nat>, e: seq<byte>)
    requires fs.Valid() && dino in fs.nodes
    requires |Dir(fs, dino)| % ENTRY == 0 && k * ENTRY <= |Dir(fs, dino)|
    modifies fs
    ensures fs.Valid() && SameBytes(old(fs.disk), old(fs.nodes), fs.disk, fs.nodes)
    ensures dino in fs.nodes && Dir(fs, dino) == old(Dir(fs, dino))
    ensures r.Ok? ==> r.value == if k * ENTRY == |Dir(fs, dino)| then 0 else ENTRY
    ensures r.Ok? && r.value > 0 ==> k < |Entries(Dir(fs, dino))| && |e| == ENTRY && e == Entries(Dir(fs, dino))[k]
    ensures r.Panicked? ==> r.why == NoSpace && Full(fs.g, fs.disk)
    ensures OthersKept(old(fs.disk), old(fs.nodes), fs.disk, fs.nodes, dino)
    ensures IsDense(old(fs.disk), old(fs.nodes), dino) ==>
              r.Ok? && fs.Unchanged(old(fs.disk), old(fs.nodes), old(fs.owner))
  {
    hide Inv, SameFile, ByteAt, Content, OthersKept, Dense;
    assert fs.nodes[dino].size <= MAX_BLOCKS * BLOCK_SIZE by {
      SizeBound(fs.g, fs.disk, fs.nodes, fs.owner, dino);
    }
    ghost var c := Dir(fs, dino);
    r, e := fs.Read(dino, k * ENTRY, ENTRY);
    SameContent(old(fs.disk), old(fs.nodes), fs.disk, fs.nodes, dino);
    if r.Ok? && r.value > 0 {
      assert e == Raw(c, k);
    }
  }

  // The loop of cofs_finddir and of cofs_unlink: the first entry whose name strcmp finds equal.
  method ScanName(fs: FileSystem, dino: nat, name: Name) returns (r: Scan)
    requires fs.Valid() && dino in fs.nodes && |Dir(fs, dino)| % ENTRY == 0
    modifies fs
    ensures fs.Valid() && SameBytes(old(fs.disk), old(fs.nodes), fs.disk, fs.nodes)
    ensures dino in fs.nodes && Dir(fs, dino) == old(Dir(fs, dino))
    ensures r.At? ==>
              && r.k == FirstNamed(Entries(Dir(fs, dino)), name) < |Entries(Dir(fs, dino))|
              && r.inum == InumOf(Entries(Dir(fs, dino))[r.k])
    ensures r.NotFound? ==>
              && r.slots == |Entries(Dir(fs, dino))|
              && forall k :: 0 <= k < r.slots ==> NameOf(Entries(Dir(fs, dino))[k]) != name
    ensures r.Failed? ==> r.why == NoSpace && Full(fs.g, fs.disk)
    ensures OthersKept(old(fs.disk), old(fs.nodes), fs.disk, fs.nodes, dino)
    ensures IsDense(old(fs.disk), old(fs.nodes), dino) ==>
              !r.Failed? && fs.Unchanged(old(fs.disk), old(fs.nodes), old(fs.owner))
  {
    hide Inv, SameBytes, ByteAt, Content, IsDense, NameOf, InumOf, OthersKept, Dense;
    var k := 0;
    OthersRefl(fs.disk, fs.nodes, dino);
    SameBytesRefl(fs.disk, fs.nodes);
    ghost var es := Entries(Dir(fs, dino));
    while true
      invariant fs.Valid() && SameBytes(old(fs.disk), old(fs.nodes), fs.disk, fs.nodes)
      invariant dino in fs.nodes && Dir(fs, dino) == old(Dir(fs, dino))
      invariant k * ENTRY <= |Dir(fs, dino)|
      invariant OthersKept(old(fs.disk), old(fs.nodes), fs.disk, fs.nodes, dino)
      invariant IsDense(old(fs.disk), old(fs.nodes), dino) ==>
                  fs.Unchanged(old(fs.disk), old(fs.nodes), old(fs.owner))
      invariant forall j :: 0 <= j < k ==> NameOf(es[j]) != name
      decreases |Dir(fs, dino)| - k * ENTRY
    {
      ghost var d1, n1 := fs.disk, fs.nodes;
      var n, e := ReadEntry(fs, dino, k);
      SameBytesTrans(old(fs.disk), old(fs.nodes), d1, n1, fs.disk, fs.nodes);
      OthersTrans(old(fs.disk), old(fs.nodes), d1, n1, fs.disk, fs.nodes, dino);
      if n.Panicked? {
        return Failed(n.why);
      }
      if n.value == 0 {
        return NotFound(k);
      }
      if NameOf(e) == name {
        return At(k, InumOf(e));
      }
      k := k + 1;
    }
  }

  /** Lookup agrees with the map the directory represents, for every name. */
  method FindDir(fs: FileSystem, dino: nat, name: Name, ghost m: map<Name, nat>) returns (r: Outcome)
    requires fs.Valid() && dino in fs.nodes && IsDirectory(Dir(fs, dino), m)
    requires 0 !in name
    modifies fs
    ensures fs.Valid() && SameBytes(old(fs.disk), old(fs.nodes), fs.disk, fs.nodes)
    ensures dino in fs.nodes && Dir(fs, dino) == old(Dir(fs, dino))
    ensures !r.Assertion? && (r.Panicked? ==> r.why == NoSpace && Full(fs.g, fs.disk))
    ensures r.Code? ==> r.code == Lookup(m, name)
    ensures OthersKept(old(fs.disk), old(fs.nodes), fs.disk, fs.nodes, dino)
    ensures IsDense(old(fs.disk), old(fs.nodes), dino) ==>
              r.Code? && fs.Unchanged(old(fs.disk), old(fs.nodes), old(fs.owner))
  {
    hide Inv, SameBytes, ByteAt, Content, NameOf, InumOf, Entries, OthersKept, Dense;
    var s := ScanName(fs, dino, name);
    match s
    case At(k, inum) => r := Code(inum);
    case NotFound(_) => r := Code(0);
    case Failed(why) => r := Outcome.Panicked(why);
  }

  // cofs_dirlink's second loop: the first entry with inode 0.
  method ScanFree(fs: FileSystem, dino: nat) returns (r: Scan)
    requires fs.Valid() && dino in fs.nodes && |Dir(fs, dino)| % ENTRY == 0
    modifies fs
    ensures fs.Valid() && SameBytes(old(fs.disk), old(fs.nodes), fs.disk, fs.nodes)
    ensures dino in fs.nodes && Dir(fs, dino) == old(Dir(fs, dino))
    ensures r.At? ==> r.k == FirstDead(Entries(Dir(fs, dino))) < |Entries(Dir(fs, dino))|
    ensures r.NotFound? ==> r.slots == FirstDead(Entries(Dir(fs, dino))) == |Entries(Dir(fs, dino))|
    ensures r.Failed? ==> r.why == NoSpace && Full(fs.g, fs.disk)
    ensures OthersKept(old(fs.disk), old(fs.nodes), fs.disk, fs.nodes, dino)
    ensures IsDense(old(fs.disk), old(fs.nodes), dino) ==>
              !r.Failed? && fs.Unchanged(old(fs.disk), old(fs.nodes), old(fs.owner))
  {
    hide Inv, SameBytes, ByteAt, Content, IsDense, InumOf, OthersKept, Dense;
    var k := 0;
    OthersRefl(fs.disk, fs.nodes, dino);
    SameBytesRefl(fs.disk, fs.nodes);
    ghost var es := Entries(Dir(fs, dino));
    while true
      invariant fs.Valid() && SameBytes(old(fs.disk), old(fs.nodes), fs.disk, fs.nodes)
      invariant dino in fs.nodes && Dir(fs, dino) == old(Dir(fs, dino))
      invariant k * ENTRY <= |Dir(fs, dino)|
      invariant OthersKept(old(fs.disk), old(fs.nodes), fs.disk, fs.nodes, dino)
      invariant IsDense(old(fs.disk), old(fs.nodes), dino) ==>
                  fs.Unchanged(old(fs.disk), old(fs.nodes), old(fs.owner))
      invariant forall j :: 0 <= j < k ==> Live(es[j])
      decreases |Dir(fs, dino)| - k * ENTRY
    {
      ghost var d1, n1 := fs.disk, fs.nodes;
      var n, e := ReadEntry(fs, dino, k);
      SameBytesTrans(old(fs.disk), old(fs.nodes), d1, n1, fs.disk, fs.nodes);
      OthersTrans(old(fs.disk), old(fs.nodes), d1, n1, fs.disk, fs.nodes, dino);
      if n.Panicked? {
        return Failed(n.why);
      }
      if n.value == 0 {
        return NotFound(k);
      }
      if InumOf(e) == 0 {
        return At(k, 0);
      }
      k := k + 1;
    }
  }

  /** Linking adds the binding, or refuses with -1 when the name is taken; the binding goes into the first free
      entry, and every other file stays as it was. */
  method DirLink(fs: FileSystem, dino: nat, name: Name, inum: nat, ghost m: map<Name, nat>) returns (r: Outcome)
    requires fs.Valid() && dino in fs.nodes && IsDirectory(Dir(fs, dino), m)
    requires 0 < |name| < DIRSIZE && 0 !in name && 0 < inum < WORD_LIMIT
    modifies fs
    ensures fs.Valid() && fs.nodes.Keys == old(fs.nodes.Keys)
    ensures forall i :: i in fs.nodes && i != dino ==> SameFile(old(fs.disk), old(fs.nodes)[i], fs.disk, fs.nodes[i])
    ensures OthersKept(old(fs.disk), old(fs.nodes), fs.disk, fs.nodes, dino)
    ensures r.Code? ==> r.code == if name in m then -1 else 0
    ensures r.Code? ==> Dir(fs, dino) == if name in m then old(Dir(fs, dino)) else Linked(old(Dir(fs, dino)), name, inum)
    ensures r.Code? ==> IsDirectory(Dir(fs, dino), if name in m then m else m[name := inum])
    ensures r.Panicked? ==> r.why == NoSpace && Full(fs.g, fs.disk)
    ensures r.Assertion? ==> name !in m && LinkOffset(old(Dir(fs, dino))) + ENTRY > WRITE_LIMIT
    ensures IsDense(old(fs.disk), old(fs.nodes), dino) ==>
              && TakenLow(fs.g, old(fs.owner), fs.owner)
              && (r.Code? ==> IsDense(fs.disk, fs.nodes, dino))
              && (r.Code? && name in m ==> fs.Unchanged(old(fs.disk), old(fs.nodes), old(fs.owner)))
              && (r.Panicked? ==> Short(fs.disk, fs.nodes[dino], Blocks(LinkOffset(old(Dir(fs, dino))) + ENTRY)))
              && (r.Panicked? ==> name !in m && LinkOffset(old(Dir(fs, dino))) + ENTRY <= WRITE_LIMIT)
              && (r.Code? && name !in m ==> LinkOffset(old(Dir(fs, dino))) + ENTRY <= WRITE_LIMIT)
  {
    hide Inv, SameFile, ByteAt, NameOf, InumOf, Entries, Represents, Splice, Encode, Lookup, Full, OthersKept, Dense, Short,
         FirstDead, Blocks, TakenLow;
    TakenLowRefl(fs.g, fs.owner);
    ghost var c := Dir(fs, dino);
    var f := FindDir(fs, dino, name, m);
    if f.Panicked? {
      return f;
    }
    LookupIn(Entries(c), m, name);
    if f.code != 0 {
      return Code(-1);
    }
    ghost var d1, n1 := fs.disk, fs.nodes;
    var s := ScanFree(fs, dino);
    SameBytesTrans(old(fs.disk), old(fs.nodes), d1, n1, fs.disk, fs.nodes);
    OthersTrans(old(fs.disk), old(fs.nodes), d1, n1, fs.disk, fs.nodes, dino);
    if s.Failed? {
      return Outcome.Panicked(s.why);
    }
    var k := if s.At? then s.k else s.slots;
    assert LinkOffset(c) == k * ENTRY;
    var e := Encode(inum, name);
    ghost var d2, n2 := fs.disk, fs.nodes;
    SizeBound(fs.g, fs.disk, fs.nodes, fs.owner, dino);
    var w := fs.Write(dino, k * ENTRY, e);
    FilesTrans(old(fs.disk), old(fs.nodes), d2, n2, fs.disk, fs.nodes, dino);
    OthersTrans(old(fs.disk), old(fs.nodes), d2, n2, fs.disk, fs.nodes, dino);
    if w.Panicked? {
      return Outcome.Panicked(w.why);
    }
    if w.value != ENTRY {
      return Assertion;
    }
    LinkedIs(c, m, name, inum);
    r := Code(0);
  }

  lemma LookupIn(es: seq<Entry>, m: map<Name, nat>, name: Name)
    requires Represents(es, m)
    ensures Lookup(m, name) == 0 <==> name !in m
    ensures name in m ==> 0 < |name| < DIRSIZE
  {
    hide NameOf, InumOf, OthersKept, Dense;
  }

  lemma EntryGood(inum: nat, name: Name)
    requires inum < WORD_LIMIT && |name| < DIRSIZE && 0 !in name && (inum == 0 <==> name == [])
    ensures NameOf(Encode(inum, name)) == name && InumOf(Encode(inum, name)) == inum
    ensures GoodEntry(Encode(inum, name)) && (Live(Encode(inum, name)) <==> inum != 0)
  {
    EntryRoundTrip(inum, name);
  }

  // The name the second search of cofs_unlink uses: that of the cached node, which for the root is "/".
  function NodeName(inum: nat, name: Name): Name {
    if inum == ROOT_INUM then [47] else name
  }

  /** Unlinking removes the binding and no other. The entry is searched again by the node's own name, so an entry
      that names the root is never removed this way: the assertion fails, unless "/" itself is an entry. */
  method Unlink(fs: FileSystem, dino: nat, name: Name, ghost m: map<Name, nat>) returns (r: Outcome)
    requires fs.Valid() && dino in fs.nodes && IsDirectory(Dir(fs, dino), m)
    requires 0 !in name
    modifies fs
    ensures fs.Valid() && fs.nodes.Keys == old(fs.nodes.Keys)
    ensures forall i :: i in fs.nodes && i != dino ==> SameFile(old(fs.disk), old(fs.nodes)[i], fs.disk, fs.nodes[i])
    ensures OthersKept(old(fs.disk), old(fs.nodes), fs.disk, fs.nodes, dino)
    ensures r.Code? ==> r.code == if name in m then 0 else -1
    ensures r.Code? ==>
              Dir(fs, dino) == if name in m then Cleared(old(Dir(fs, dino)), NodeName(m[name], name)) else old(Dir(fs, dino))
    ensures r.Code? ==> IsDirectory(Dir(fs, dino), if name in m then m - {NodeName(m[name], name)} else m)
    ensures r.Code? ==> |Dir(fs, dino)| == |old(Dir(fs, dino))| && (name in m ==> NodeName(m[name], name) in m)
    ensures r.Panicked? ==> r.why == NoSpace && Full(fs.g, fs.disk)
    ensures r.Assertion? ==>
              name in m && (NodeName(m[name], name) !in m
                            || ClearOffset(old(Dir(fs, dino)), NodeName(m[name], name)) + ENTRY > WRITE_LIMIT)
    ensures IsDense(old(fs.disk), old(fs.nodes), dino) ==>
              && TakenLow(fs.g, old(fs.owner), fs.owner)
              && (r.Code? ==> IsDense(fs.disk, fs.nodes, dino))
              && (r.Code? && name !in m ==> fs.Unchanged(old(fs.disk), old(fs.nodes), old(fs.owner)))
              && !r.Panicked?
              && (name in m && NodeName(m[name], name) !in m ==> r.Assertion?)
              && (name in m && ClearOffset(old(Dir(fs, dino)), NodeName(m[name], name)) + ENTRY > WRITE_LIMIT ==> r.Assertion?)
    ensures IsDense(old(fs.disk), old(fs.nodes), dino) && name in m && m[name] != 1
            && ClearOffset(old(Dir(fs, dino)), name) + 32 <= 8388742 ==>
              r == Code(0) && IsDirectory(Dir(fs, dino), m - {name})
    ensures IsDense(old(fs.disk), old(fs.nodes), dino) && name in m && m[name] == 1 && [47] !in m ==> r.Assertion?
  {
    hide Inv, SameFile, ByteAt, NameOf, InumOf, Entries, Represents, Splice, Encode, Lookup, Full, OthersKept, Dense, Short,
         FirstNamed, Blocks, TakenLow;
    TakenLowRefl(fs.g, fs.owner);
    ghost var c := Dir(fs, dino);
    var f := FindDir(fs, dino, name, m);
    if f.Panicked? {
      return f;
    }
    LookupIn(Entries(c), m, name);
    if f.code == 0 {
      return Code(-1);
    }
    LookupValue(m, name);
    ghost var d1, n1 := fs.disk, fs.nodes;
    var s := ScanName(fs, dino, NodeName(f.code, name));
    SameBytesTrans(old(fs.disk), old(fs.nodes), d1, n1, fs.disk, fs.nodes);
    OthersTrans(old(fs.disk), old(fs.nodes), d1, n1, fs.disk, fs.nodes, dino);
    if s.Failed? {
      return Outcome.Panicked(s.why);
    }
    if s.NotFound? {
      NoneNamed(Entries(c), m, NodeName(f.code, name));
      return Assertion;
    }
    var e := Encode(0, []);
    ghost var d2, n2 := fs.disk, fs.nodes;
    NamedLive(Entries(c), m, NodeName(f.code, name), s.k);
    ClearedIs(c, m, NodeName(f.code, name));
    SizeBound(fs.g, fs.disk, fs.nodes, fs.owner, dino);
    var w := fs.Write(dino, s.k * ENTRY, e);
    FilesTrans(old(fs.disk), old(fs.nodes), d2, n2, fs.disk, fs.nodes, dino);
    OthersTrans(old(fs.disk), old(fs.nodes), d2, n2, fs.disk, fs.nodes, dino);
    if w.Panicked? {
      return Outcome.Panicked(w.why);
    }
    if w.value != ENTRY {
      return Assertion;
    }
    r := Code(0);
  }

  lemma LookupValue(m: map<Name, nat>, name: Name)
    requires name in m
    ensures Lookup(m, name) == m[name]
  {
  }

  lemma NoneNamed(es: seq<Entry>, m: map<Name, nat>, name: Name)
    requires Represents(es, m) && forall k :: 0 <= k < |es| ==> NameOf(es[k]) != name
    ensures name !in m
  {
    hide NameOf, InumOf, OthersKept, Dense;
  }

  lemma NamedLive(es: seq<Entry>, m: map<Name, nat>, name: Name, k: nat)
    requires Represents(es, m) && k < |es| && NameOf(es[k]) == name && name != []
    ensures Live(es[k]) && name in m
  {
    hide NameOf, InumOf, OthersKept, Dense;
    assert GoodEntry(es[k]);
  }
}
