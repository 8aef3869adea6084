/**
Physical frames and page directories: the free list threaded through the free
frames themselves, and the cloning and freeing of a process's directory that
fork and exit are made of.

Physical memory is a sequence of frames of 1024 words. A frame is reached through
a reserved page that is mapped for the occasion and unmapped again; that detour
has no lasting effect and is not part of this model.
*/
module Paging {

  const PAGE := 4096
  const ENTRIES := 1024
  const RECURSIVE := 1023

  // Directory indices: 0x0FFF5000 >> 22, 0xD0000000 >> 22 and 0xE0000000 >> 22.
  const USER_STACK_PDE := 63
  const HEAP_START_PDE := 832
  const HEAP_END_PDE := 896

  type Frame = f: seq<nat> | |f| == 1024 witness seq(1024, _ => 0)

  function ZeroFrame(): (f: Frame)
    ensures forall i :: 0 <= i < ENTRIES ==> f[i] == 0
  {
    seq(1024, _ => 0)
  }

  // ---- entries -------------------------------------------------------------

  predicate Present(e: nat) {
    e % 2 == 1
  }

  function FlagsOf(e: nat): nat {
    e % PAGE
  }

  function FrameOf(e: nat): nat {
    e / PAGE
  }

  function Entry(frame: nat, flags: nat): (e: nat)
    requires flags < PAGE
    ensures FrameOf(e) == frame && FlagsOf(e) == flags && Present(e) == (flags % 2 == 1)
  {
    frame * PAGE + flags
  }

  /** An entry: the present bit lowest, twelve bits of flags, and the number of a 4096-byte frame. */
  lemma EntryBits(e: nat)
    ensures Present(e) == (e % 2 == 1) && FlagsOf(e) == e % 4096 && FrameOf(e) == e / 4096
  {
  }

  lemma FlagsPresent(e: nat)
    ensures FlagsOf(e) % 2 == e % 2
  {
    assert e == FrameOf(e) * PAGE + FlagsOf(e);
  }

  predicate Linked(pd: nat) {
    pd < USER_STACK_PDE || HEAP_START_PDE <= pd < HEAP_END_PDE
  }

  predicate Private(pd: nat) {
    pd < RECURSIVE && !Linked(pd)
  }

  /** What a fork copies and what it shares, by virtual address: the user's stack, code and heap and the kernel's stack are
      copied; the kernel's code and data, and its heap, are shared. */
  lemma AddressRanges(addr: nat)
    requires addr < 0x1_0000_0000
    ensures Private(addr / 0x40_0000) <==> 0x0FC0_0000 <= addr < 0xD000_0000 || 0xE000_0000 <= addr < 0xFFC0_0000
    ensures Linked(addr / 0x40_0000) <==> addr < 0x0FC0_0000 || 0xD000_0000 <= addr < 0xE000_0000
  {
  }

  function WordOf(mem: seq<Frame>, f: nat, i: nat): nat {
    if f < |mem| && i < ENTRIES then mem[f][i] else 0
  }

  // Two-level translation of the page at (pd, pt): its entry, 0 when it is not mapped.
  function Pte(mem: seq<Frame>, dir: nat, pd: nat, pt: nat): nat {
    var pde := WordOf(mem, dir, pd);
    if Present(pde) then
      var pte := WordOf(mem, FrameOf(pde), pt);
      if Present(pte) then pte else 0
    else 0
  }

  // ---- the free list -------------------------------------------------------

  function HeadOf(free: seq<nat>): nat {
    if free == [] then 0 else free[0] * PAGE
  }

  ghost predicate Distinct(free: seq<nat>) {
    forall i, j :: 0 <= i < j < |free| ==> free[i] != free[j]
  }

  // Each free frame is a frame other than 0 and its first word names the next one.
  ghost predicate Chain(mem: seq<Frame>, free: seq<nat>) {
    && Distinct(free)
    && (forall i :: 0 <= i < |free| ==> 0 < free[i] < |mem|)
    && (forall i :: 0 <= i < |free| ==> mem[free[i]][0] == HeadOf(free[i + 1..]))
  }

  lemma PopChain(mem: seq<Frame>, free: seq<nat>, v: Frame)
    requires Chain(mem, free) && free != []
    ensures Chain(mem[free[0] := v], free[1..])
  {
    var mem', free' := mem[free[0] := v], free[1..];
    forall i | 0 <= i < |free'| ensures mem'[free'[i]][0] == HeadOf(free'[i + 1..]) {
      assert free'[i + 1..] == free[i + 2..];
      assert free'[i] == free[i + 1] && free[0] != free[i + 1];
      assert mem[free[i + 1]][0] == HeadOf(free[i + 1 + 1..]);
    }
  }

  lemma PushChain(mem: seq<Frame>, free: seq<nat>, f: nat)
    requires Chain(mem, free) && 0 < f < |mem| && f !in free
    ensures Chain(mem[f := mem[f][0 := HeadOf(free)]], [f] + free)
  {
    var mem', free' := mem[f := mem[f][0 := HeadOf(free)]], [f] + free;
    forall i | 0 <= i < |free'| ensures mem'[free'[i]][0] == HeadOf(free'[i + 1..]) {
      if i == 0 {
        assert free'[1..] == free;
      } else {
        assert free'[i + 1..] == free[i..];
        assert mem[free[i - 1]][0] == HeadOf(free[i - 1 + 1..]);
      }
    }
  }

  // Writing a frame that is not free leaves the list alone.
  lemma KeepChain(mem: seq<Frame>, free: seq<nat>, f: nat, v: Frame)
    requires Chain(mem, free) && f < |mem| && f !in free
    ensures Chain(mem[f := v], free)
  {
    forall i | 0 <= i < |free| ensures mem[f := v][free[i]][0] == HeadOf(free[i + 1..]) {
      assert free[i] != f;
    }
  }

  // ---- the private frames of a directory ------------------------------------

  /** What a process owns: its directory, the tables of its private range and the pages they map. */
  datatype Node = Root | Table(pd: nat) | Page(pd: nat, pt: nat)

  predicate ValidNode(n: Node) {
    match n
    case Root => true
    case Table(pd) => Private(pd)
    case Page(pd, pt) => Private(pd) && pt < ENTRIES
  }

  // Frame of a node, 0 when there is none.
  function FrameAt(mem: seq<Frame>, dir: nat, n: Node): nat {
    match n
    case Root => dir
    case Table(pd) => if Present(WordOf(mem, dir, pd)) then FrameOf(WordOf(mem, dir, pd)) else 0
    case Page(pd, pt) => FrameOf(Pte(mem, dir, pd, pt))
  }

  // `owner` names the private frames of dir: each belongs to exactly one node.
  ghost predicate Owns(mem: seq<Frame>, dir: nat, owner: map<nat, Node>) {
    && (forall f :: f in owner ==> 0 < f < |mem| && ValidNode(owner[f]) && FrameAt(mem, dir, owner[f]) == f)
    && (forall n :: ValidNode(n) && FrameAt(mem, dir, n) != 0 ==>
                      FrameAt(mem, dir, n) in owner && owner[FrameAt(mem, dir, n)] == n)
  }

  // ---- taking a frame into a node -------------------------------------------

  /** A fresh zeroed table in an empty directory entry: only that entry changes, and nothing is mapped under it. */
  lemma TakeTable(mem: seq<Frame>, dir: nat, owner: map<nat, Node>, f: nat, pd: nat, flags: nat, mem': seq<Frame>)
    requires Owns(mem, dir, owner) && dir in owner && owner[dir] == Root
    requires 0 < f < |mem| && f !in owner && Private(pd) && flags < PAGE && flags % 2 == 1
    requires !Present(mem[dir][pd])
    requires mem' == mem[f := ZeroFrame()][dir := mem[dir][pd := Entry(f, flags)]]
    ensures forall n :: ValidNode(n) ==> FrameAt(mem', dir, n) == if n == Table(pd) then f else FrameAt(mem, dir, n)
    ensures forall a: nat, b: nat :: Private(a) && b < ENTRIES ==> Pte(mem', dir, a, b) == if a == pd then 0 else Pte(mem, dir, a, b)
    ensures Owns(mem', dir, owner[f := Table(pd)])
  {
    forall a: nat, b: nat | Private(a) && b < ENTRIES
      ensures Pte(mem', dir, a, b) == if a == pd then 0 else Pte(mem, dir, a, b)
    {
      TableElsewhere(mem, dir, owner, a);
    }
    TakeOwns(mem, dir, owner, f, Table(pd), mem');
  }

  // A table frame is neither the directory nor a frame outside the owned ones.
  lemma TableElsewhere(mem: seq<Frame>, dir: nat, owner: map<nat, Node>, pd: nat)
    requires Owns(mem, dir, owner) && dir in owner && owner[dir] == Root && Private(pd)
    ensures FrameAt(mem, dir, Table(pd)) != dir
    ensures FrameAt(mem, dir, Table(pd)) != 0 ==>
              FrameAt(mem, dir, Table(pd)) in owner && owner[FrameAt(mem, dir, Table(pd))] == Table(pd)
  {
    assert ValidNode(Table(pd));
  }

  lemma TakeOwns(mem: seq<Frame>, dir: nat, owner: map<nat, Node>, f: nat, at: Node, mem': seq<Frame>)
    requires Owns(mem, dir, owner) && 0 < f < |mem| == |mem'| && f !in owner && ValidNode(at)
    requires FrameAt(mem, dir, at) == 0
    requires forall n :: ValidNode(n) ==> FrameAt(mem', dir, n) == if n == at then f else FrameAt(mem, dir, n)
    ensures Owns(mem', dir, owner[f := at])
  {
    hide FrameAt;
  }

  /** A fresh copy in an empty table entry: only that page appears. */
  lemma TakePage(mem: seq<Frame>, dir: nat, owner: map<nat, Node>, t: nat, f: nat, pd: nat, pt: nat, flags: nat,
                 page: Frame, mem': seq<Frame>)
    requires Owns(mem, dir, owner) && dir in owner && owner[dir] == Root
    requires 0 < f < |mem| && f !in owner && Private(pd) && pt < ENTRIES && flags < PAGE && flags % 2 == 1
    requires 0 < t < |mem| && t == FrameAt(mem, dir, Table(pd)) && !Present(mem[t][pt])
    requires mem' == mem[f := page][t := mem[t][pt := Entry(f, flags)]]
    ensures forall n :: ValidNode(n) ==> FrameAt(mem', dir, n) == if n == Page(pd, pt) then f else FrameAt(mem, dir, n)
    ensures forall a: nat, b: nat :: Private(a) && b < ENTRIES ==>
                             Pte(mem', dir, a, b) == if a == pd && b == pt then Entry(f, flags) else Pte(mem, dir, a, b)
    ensures Owns(mem', dir, owner[f := Page(pd, pt)])
    ensures t != dir
  {
    TableElsewhere(mem, dir, owner, pd);
    forall a: nat, b: nat | Private(a) && b < ENTRIES
      ensures Pte(mem', dir, a, b) == if a == pd && b == pt then Entry(f, flags) else Pte(mem, dir, a, b)
    {
      TableElsewhere(mem, dir, owner, a);
    }
    TakeOwns(mem, dir, owner, f, Page(pd, pt), mem');
  }

  /** A table entry set to zero: only that page disappears, whatever is then done to its frame. */
  lemma DropPage(mem: seq<Frame>, dir: nat, owner: map<nat, Node>, t: nat, f: nat, pd: nat, pt: nat,
                 page: Frame, mem': seq<Frame>)
    requires Owns(mem, dir, owner) && dir in owner && owner[dir] == Root && Private(pd) && pt < ENTRIES
    requires 0 < t < |mem| && t == FrameAt(mem, dir, Table(pd)) && f == FrameAt(mem, dir, Page(pd, pt)) && 0 < f < |mem|
    requires mem' == mem[f := page][t := mem[t][pt := 0]]
    ensures forall a: nat, b: nat :: Private(a) && b < ENTRIES ==>
                             Pte(mem', dir, a, b) == if a == pd && b == pt then 0 else Pte(mem, dir, a, b)
    ensures forall a: nat :: Private(a) ==> WordOf(mem', dir, a) == WordOf(mem, dir, a)
    ensures Owns(mem', dir, owner - {f})
    ensures t != dir && f != dir && f != t
  {
    TableElsewhere(mem, dir, owner, pd);
    assert ValidNode(Page(pd, pt)) && ValidNode(Table(pd));
    assert owner[f] == Page(pd, pt) && owner[t] == Table(pd);
    forall a: nat, b: nat | Private(a) && b < ENTRIES
      ensures Pte(mem', dir, a, b) == if a == pd && b == pt then 0 else Pte(mem, dir, a, b)
    {
      TableElsewhere(mem, dir, owner, a);
    }
    forall n | ValidNode(n) ensures FrameAt(mem', dir, n) == if n == Page(pd, pt) then 0 else FrameAt(mem, dir, n) {
    }
    DropOwns(mem, dir, owner, f, Page(pd, pt), mem');
  }

  lemma DropOwns(mem: seq<Frame>, dir: nat, owner: map<nat, Node>, f: nat, at: Node, mem': seq<Frame>)
    requires Owns(mem, dir, owner) && |mem| == |mem'| && ValidNode(at) && f == FrameAt(mem, dir, at) && f != 0
    requires forall n :: ValidNode(n) ==> FrameAt(mem', dir, n) == if n == at then 0 else FrameAt(mem, dir, n)
    ensures Owns(mem', dir, owner - {f})
  {
    hide FrameAt;
  }

  // A write to the directory outside the private range moves nothing.
  lemma SetShared(mem: seq<Frame>, dir: nat, owner: map<nat, Node>, pd: nat, e: nat)
    requires Owns(mem, dir, owner) && dir in owner && owner[dir] == Root && dir < |mem| && pd < ENTRIES && !Private(pd)
    ensures Owns(mem[dir := mem[dir][pd := e]], dir, owner)
    ensures forall a: nat, b: nat :: Private(a) && b < ENTRIES ==> Pte(mem[dir := mem[dir][pd := e]], dir, a, b) == Pte(mem, dir, a, b)
  {
    var mem' := mem[dir := mem[dir][pd := e]];
    forall a: nat, b: nat | Private(a) && b < ENTRIES ensures Pte(mem', dir, a, b) == Pte(mem, dir, a, b) {
      TableElsewhere(mem, dir, owner, a);
    }
    forall n | ValidNode(n) ensures FrameAt(mem', dir, n) == FrameAt(mem, dir, n) {
    }
    SameOwns(mem, dir, owner, mem');
  }

  lemma SameOwns(mem: seq<Frame>, dir: nat, owner: map<nat, Node>, mem': seq<Frame>)
    requires Owns(mem, dir, owner) && |mem| == |mem'|
    requires forall n :: ValidNode(n) ==> FrameAt(mem', dir, n) == FrameAt(mem, dir, n)
    ensures Owns(mem', dir, owner)
  {
    hide FrameAt;
  }

  // ---- what a clone looks like -----------------------------------------------

  // Entry pd of the new directory: absent, shared with the old one, or a table of its own with the same flags.
  ghost predicate ClonedPde(mem0: seq<Frame>, cur: nat, mem: seq<Frame>, dir: nat, pd: nat) {
    var e0, e := WordOf(mem0, cur, pd), WordOf(mem, dir, pd);
    if !Present(e0) then e == 0
    else if Linked(pd) then e == e0
    else Present(e) && FlagsOf(e) == FlagsOf(e0) && FrameOf(e) != 0
  }

  // Page (pd, pt) of a private range: absent in both, or a copy with the same flags.
  ghost predicate ClonedPte(mem0: seq<Frame>, cur: nat, mem: seq<Frame>, dir: nat, pd: nat, pt: nat) {
    var p0, p := Pte(mem0, cur, pd, pt), Pte(mem, dir, pd, pt);
    if p0 == 0 then p == 0
    else
      && p != 0 && FlagsOf(p) == FlagsOf(p0)
      && 0 < FrameOf(p) < |mem| && FrameOf(p0) < |mem0|
      && mem[FrameOf(p)] == mem0[FrameOf(p0)]
  }

  ghost predicate ClonedRange(mem0: seq<Frame>, cur: nat, mem: seq<Frame>, dir: nat, pds: nat) {
    && (forall pd: nat :: pd < pds ==> ClonedPde(mem0, cur, mem, dir, pd))
    && (forall pd: nat, pt: nat :: pd < pds && Private(pd) && pt < ENTRIES ==> ClonedPte(mem0, cur, mem, dir, pd, pt))
  }

  // The frames that cloning reads are frames in use.
  ghost predicate Readable(mem: seq<Frame>, cur: nat, free: seq<nat>) {
    && cur < |mem| && cur !in free
    && (forall pd: nat :: Private(pd) && Present(mem[cur][pd]) ==>
                            FrameOf(mem[cur][pd]) < |mem| && FrameOf(mem[cur][pd]) !in free)
    && (forall pd: nat, pt: nat :: Private(pd) && pt < ENTRIES && Pte(mem, cur, pd, pt) != 0 ==>
                                     FrameOf(Pte(mem, cur, pd, pt)) < |mem| && FrameOf(Pte(mem, cur, pd, pt)) !in free)
  }

  // ---- what a clone costs ------------------------------------------------------

  // Pages mapped by the first pt entries of table pd.
  ghost function PagesBelow(mem: seq<Frame>, dir: nat, pd: nat, pt: nat): nat {
    if pt == 0 then 0 else PagesBelow(mem, dir, pd, pt - 1) + if Pte(mem, dir, pd, pt - 1) != 0 then 1 else 0
  }

  // Private tables and pages below entry pd.
  ghost function FramesBelow(mem: seq<Frame>, dir: nat, pd: nat): nat {
    if pd == 0 then 0
    else
      FramesBelow(mem, dir, pd - 1)
      + if Private(pd - 1) && Present(WordOf(mem, dir, pd - 1)) then 1 + PagesBelow(mem, dir, pd - 1, ENTRIES) else 0
  }

  // The directory, its private tables and the pages they map.
  ghost function CloneCost(mem: seq<Frame>, dir: nat): nat {
    1 + FramesBelow(mem, dir, RECURSIVE)
  }

  lemma {:induction false} PagesGrow(mem: seq<Frame>, dir: nat, pd: nat, pt: nat, n: nat)
    requires pt <= n
    ensures PagesBelow(mem, dir, pd, pt) <= PagesBelow(mem, dir, pd, n)
  {
    if pt < n {
      PagesGrow(mem, dir, pd, pt, n - 1);
    }
  }

  lemma {:induction false} FramesGrow(mem: seq<Frame>, dir: nat, pd: nat, n: nat)
    requires pd <= n
    ensures FramesBelow(mem, dir, pd) <= FramesBelow(mem, dir, n)
  {
    if pd < n {
      FramesGrow(mem, dir, pd, n - 1);
    }
  }

  // Frames were taken from the front of the free list, they are the ones `owner` names, and no other frame changed.
  ghost predicate Taken(mem0: seq<Frame>, free0: seq<nat>, mem: seq<Frame>, free: seq<nat>, owner: map<nat, Node>) {
    && |mem| == |mem0| && |free| <= |free0| && free == free0[|free0| - |free|..]
    && (forall f :: f in owner <==> f in free0[..|free0| - |free|])
    && (forall f :: 0 <= f < |mem| && f !in free0 ==> mem[f] == mem0[f])
  }

  lemma TakenNext(mem0: seq<Frame>, free0: seq<nat>, mem: seq<Frame>, free: seq<nat>, owner: map<nat, Node>,
                  f: nat, at: Node, mem': seq<Frame>, free': seq<nat>)
    requires Taken(mem0, free0, mem, free, owner) && free != [] && f == free[0] && free' == free[1..]
    requires |mem'| == |mem| && forall g :: 0 <= g < |mem| && g !in free0 ==> mem'[g] == mem[g]
    ensures Taken(mem0, free0, mem', free', owner[f := at])
  {
    var k := |free0| - |free|;
    assert free0[k] == f;
    assert free0[..k + 1] == free0[..k] + [f];
    assert free' == free0[k + 1..];
  }

  lemma TakenFresh(mem0: seq<Frame>, free0: seq<nat>, mem: seq<Frame>, free: seq<nat>, owner: map<nat, Node>)
    requires Taken(mem0, free0, mem, free, owner) && Distinct(free0)
    ensures forall f :: f in free ==> f !in owner && f in free0
    ensures forall f :: f in owner ==> f !in free && f in free0
  {
    var k := |free0| - |free|;
    forall f | f in free ensures f !in owner && f in free0 {
      var i :| 0 <= i < |free| && free[i] == f;
      assert free0[k + i] == f;
    }
  }

  // A cloned page stays so while its entry and all private page frames stay.
  lemma KeepCloned(mem0: seq<Frame>, cur: nat, mem: seq<Frame>, mem': seq<Frame>, dir: nat, owner: map<nat, Node>,
                   pd: nat, pt: nat)
    requires Owns(mem, dir, owner) && Private(pd) && pt < ENTRIES && |mem'| == |mem|
    requires ClonedPte(mem0, cur, mem, dir, pd, pt) && Pte(mem', dir, pd, pt) == Pte(mem, dir, pd, pt)
    requires forall g :: g in owner && owner[g].Page? ==> mem'[g] == mem[g]
    ensures ClonedPte(mem0, cur, mem', dir, pd, pt)
  {
    var p := Pte(mem, dir, pd, pt);
    if p != 0 {
      assert ValidNode(Page(pd, pt)) && FrameAt(mem, dir, Page(pd, pt)) == FrameOf(p);
      assert FrameOf(p) in owner;
    }
  }

  // The frames of the new directory came from the free list, which the old directory does not use.
  ghost predicate Underway(mem0: seq<Frame>, free0: seq<nat>, cur: nat, mem: seq<Frame>, free: seq<nat>,
                           dir: nat, owner: map<nat, Node>)
  {
    && Chain(mem0, free0) && Readable(mem0, cur, free0)
    && Taken(mem0, free0, mem, free, owner)
    && Owns(mem, dir, owner) && dir in owner && owner[dir] == Root
  }

  ghost predicate EmptyFrom(frame: Frame, k: nat) {
    forall i: nat :: k <= i < ENTRIES ==> frame[i] == 0
  }

  // A directory under construction: entries below pd are cloned, the rest is empty.
  ghost predicate Building(mem0: seq<Frame>, free0: seq<nat>, cur: nat, mem: seq<Frame>, free: seq<nat>,
                           dir: nat, owner: map<nat, Node>, pd: nat)
  {
    && Underway(mem0, free0, cur, mem, free, dir, owner)
    && ClonedRange(mem0, cur, mem, dir, pd)
    && dir < |mem| && EmptyFrom(mem[dir], pd)
  }

  ghost predicate ClonedPages(mem0: seq<Frame>, cur: nat, mem: seq<Frame>, dir: nat, pd: nat, pt: nat) {
    forall i: nat :: i < pt ==> ClonedPte(mem0, cur, mem, dir, pd, i)
  }

  // The table of entry pd is there and holds copies of the pages below pt.
  ghost predicate BuildingTable(mem0: seq<Frame>, free0: seq<nat>, cur: nat, mem: seq<Frame>, free: seq<nat>,
                                dir: nat, owner: map<nat, Node>, pd: nat, t: nat, pt: nat)
  {
    && Underway(mem0, free0, cur, mem, free, dir, owner)
    && Private(pd) && ClonedRange(mem0, cur, mem, dir, pd) && ClonedPde(mem0, cur, mem, dir, pd)
    && dir < |mem| && EmptyFrom(mem[dir], pd + 1)
    && t == FrameAt(mem, dir, Table(pd)) && 0 < t < |mem|
    && ClonedPages(mem0, cur, mem, dir, pd, pt) && EmptyFrom(mem[t], pt)
  }

  // What holds of the next free frame.
  lemma NextFrame(mem0: seq<Frame>, free0: seq<nat>, cur: nat, mem: seq<Frame>, free: seq<nat>,
                  dir: nat, owner: map<nat, Node>)
    requires Underway(mem0, free0, cur, mem, free, dir, owner)
    ensures |mem| == |mem0| && 0 < dir < |mem| && dir !in free && cur < |mem| && cur !in owner && mem[cur] == mem0[cur]
    ensures forall g :: g in owner ==> g in free0 && g !in free && 0 < g < |mem|
    ensures forall g :: g in free ==> g in free0 && 0 < g < |mem|
    ensures forall g :: 0 <= g < |mem| && g !in free0 ==> mem[g] == mem0[g]
  {
    hide Pte;
    ChainParts(mem0, free0);
    hide Chain;
    TakenFresh(mem0, free0, mem, free, owner);
  }

  lemma StartTable(mem0: seq<Frame>, free0: seq<nat>, cur: nat, mem: seq<Frame>, free: seq<nat>,
                   dir: nat, owner: map<nat, Node>, pd: nat, f: nat, mem': seq<Frame>, free': seq<nat>)
    requires Building(mem0, free0, cur, mem, free, dir, owner, pd) && Private(pd)
    requires cur < |mem0| && Present(mem0[cur][pd])
    requires free != [] && f == free[0] && free' == free[1..]
    requires mem' == mem[f := ZeroFrame()][dir := mem[dir][pd := Entry(f, FlagsOf(mem0[cur][pd]))]]
    ensures BuildingTable(mem0, free0, cur, mem', free', dir, owner[f := Table(pd)], pd, f, 0)
  {
    hide Chain, Readable, Pte, Owns, Taken, ClonedPte, ClonedPde, FrameAt;
    NextFrame(mem0, free0, cur, mem, free, dir, owner);
    assert f in free;
    var flags := FlagsOf(mem0[cur][pd]);
    FlagsPresent(mem0[cur][pd]);
    TakeTable(mem, dir, owner, f, pd, flags, mem');
    TakenNext(mem0, free0, mem, free, owner, f, Table(pd), mem', free');
    KeepRange(mem0, cur, mem, mem', dir, owner, pd, 0);
    NewPde(mem0, cur, mem', dir, pd, f);
    assert ValidNode(Table(pd));
  }

  // An entry that names a new table, with the flags of the old entry.
  lemma NewPde(mem0: seq<Frame>, cur: nat, mem: seq<Frame>, dir: nat, pd: nat, f: nat)
    requires cur < |mem0| && dir < |mem| && Private(pd) && Present(mem0[cur][pd]) && f != 0
    requires mem[dir][pd] == Entry(f, FlagsOf(mem0[cur][pd]))
    ensures ClonedPde(mem0, cur, mem, dir, pd)
  {
    FlagsPresent(mem0[cur][pd]);
  }

  lemma ChainParts(mem: seq<Frame>, free: seq<nat>)
    requires Chain(mem, free)
    ensures Distinct(free) && forall i :: 0 <= i < |free| ==> 0 < free[i] < |mem|
  {
  }

  // A page that is not mapped leaves a zero entry behind.
  lemma SkipPage(mem0: seq<Frame>, free0: seq<nat>, cur: nat, mem: seq<Frame>, free: seq<nat>,
                 dir: nat, owner: map<nat, Node>, pd: nat, t: nat, pt: nat)
    requires BuildingTable(mem0, free0, cur, mem, free, dir, owner, pd, t, pt) && pt < ENTRIES
    requires Pte(mem0, cur, pd, pt) == 0
    ensures BuildingTable(mem0, free0, cur, mem, free, dir, owner, pd, t, pt + 1)
  {
    hide Underway, ClonedRange;
    assert ClonedPte(mem0, cur, mem, dir, pd, pt);
  }

  // What is cloned below page pt of entry pd stays so while those entries and pages stay.
  lemma KeepRange(mem0: seq<Frame>, cur: nat, mem: seq<Frame>, mem': seq<Frame>, dir: nat, owner: map<nat, Node>,
                  pd: nat, pt: nat)
    requires Owns(mem, dir, owner) && |mem'| == |mem| && dir < |mem| && Private(pd) && pt <= ENTRIES
    requires forall i: nat :: i < pd ==> mem'[dir][i] == mem[dir][i]
    requires forall a: nat, b: nat :: Private(a) && b < ENTRIES && (a < pd || (a == pd && b < pt)) ==>
                                        Pte(mem', dir, a, b) == Pte(mem, dir, a, b)
    requires forall g :: g in owner && owner[g].Page? ==> mem'[g] == mem[g]
    requires ClonedRange(mem0, cur, mem, dir, pd) && ClonedPages(mem0, cur, mem, dir, pd, pt)
    ensures ClonedRange(mem0, cur, mem', dir, pd) && ClonedPages(mem0, cur, mem', dir, pd, pt)
  {
    hide Pte, ClonedPte, Owns;
    forall a: nat, b: nat | Private(a) && b < ENTRIES && (a < pd || (a == pd && b < pt))
      ensures ClonedPte(mem0, cur, mem', dir, a, b)
    {
      KeepCloned(mem0, cur, mem, mem', dir, owner, a, b);
    }
    forall a: nat | a < pd ensures ClonedPde(mem0, cur, mem', dir, a) {
      assert ClonedPde(mem0, cur, mem, dir, a);
    }
  }

  lemma CopyPage(mem0: seq<Frame>, free0: seq<nat>, cur: nat, mem: seq<Frame>, free: seq<nat>,
                 dir: nat, owner: map<nat, Node>, pd: nat, t: nat, pt: nat, f: nat, mem': seq<Frame>, free': seq<nat>)
    requires BuildingTable(mem0, free0, cur, mem, free, dir, owner, pd, t, pt) && pt < ENTRIES
    requires Pte(mem0, cur, pd, pt) != 0 && FrameOf(Pte(mem0, cur, pd, pt)) < |mem0|
    requires free != [] && f == free[0] && free' == free[1..]
    requires mem' == mem[f := mem0[FrameOf(Pte(mem0, cur, pd, pt))]]
                        [t := mem[t][pt := Entry(f, FlagsOf(Pte(mem0, cur, pd, pt)))]]
    ensures BuildingTable(mem0, free0, cur, mem', free', dir, owner[f := Page(pd, pt)], pd, t, pt + 1)
  {
    var p0 := Pte(mem0, cur, pd, pt);
    hide Chain, Readable, ClonedRange, ClonedPde, ClonedPte, Owns, Taken, FrameAt;
    PtePresent(mem0, cur, pd, pt);
    hide Pte, FlagsOf, FrameOf;
    NextFrame(mem0, free0, cur, mem, free, dir, owner);
    assert f in free;
    TableElsewhere(mem, dir, owner, pd);
    CopyKeeps(mem0, free0, mem, dir, owner, t, pd, f);
    TakePage(mem, dir, owner, t, f, pd, pt, FlagsOf(p0), mem0[FrameOf(p0)], mem');
    TakenNext(mem0, free0, mem, free, owner, f, Page(pd, pt), mem', free');
    KeepRange(mem0, cur, mem, mem', dir, owner, pd, pt);
    KeepPde(mem0, cur, mem, mem', dir, pd);
    CopiedPte(mem0, cur, mem', dir, pd, pt, f);
    assert ValidNode(Table(pd));
  }

  lemma PtePresent(mem: seq<Frame>, dir: nat, pd: nat, pt: nat)
    requires Pte(mem, dir, pd, pt) != 0
    ensures var p := Pte(mem, dir, pd, pt); Present(p) && FlagsOf(p) % 2 == 1 && FlagsOf(p) < PAGE
  {
    FlagsPresent(Pte(mem, dir, pd, pt));
  }

  lemma KeepPde(mem0: seq<Frame>, cur: nat, mem: seq<Frame>, mem': seq<Frame>, dir: nat, pd: nat)
    requires |mem'| == |mem| && dir < |mem| && pd < ENTRIES && mem'[dir][pd] == mem[dir][pd]
    requires ClonedPde(mem0, cur, mem, dir, pd)
    ensures ClonedPde(mem0, cur, mem', dir, pd)
  {
  }

  lemma CopiedPte(mem0: seq<Frame>, cur: nat, mem: seq<Frame>, dir: nat, pd: nat, pt: nat, f: nat)
    requires Pte(mem0, cur, pd, pt) != 0 && FrameOf(Pte(mem0, cur, pd, pt)) < |mem0| && 0 < f < |mem|
    requires Pte(mem, dir, pd, pt) == Entry(f, FlagsOf(Pte(mem0, cur, pd, pt)))
    requires mem[f] == mem0[FrameOf(Pte(mem0, cur, pd, pt))]
    ensures ClonedPte(mem0, cur, mem, dir, pd, pt)
  {
    hide Pte;
  }

  // The table of a private entry came from the old free list and is no page.
  lemma CopyKeeps(mem0: seq<Frame>, free0: seq<nat>, mem: seq<Frame>, dir: nat, owner: map<nat, Node>,
                  t: nat, pd: nat, f: nat)
    requires Owns(mem, dir, owner) && Private(pd) && t == FrameAt(mem, dir, Table(pd)) != 0
    requires f !in owner && forall g :: g in owner ==> g in free0
    ensures t in free0 && t in owner && owner[t] == Table(pd) && t != f
    ensures forall g :: g in owner && owner[g].Page? ==> g < |mem| && g != t && g != f
  {
    assert ValidNode(Table(pd));
  }

  class Memory {
    var mem: seq<Frame>
    var lastFreePage: nat
    var numPages: nat
    ghost var free: seq<nat>

    ghost predicate Valid()
      reads this
    {
      Chain(mem, free) && lastFreePage == HeadOf(free) && numPages == |free|
    }

    // Nothing is free before the usable memory has been reserved.
    constructor (frames: seq<Frame>)
      ensures Valid() && mem == frames && free == []
    {
      mem, lastFreePage, numPages, free := frames, 0, 0, [];
    }

    // Unlinks the first free frame; fails (an assertion in the source) when there is none.
    method FrameAlloc() returns (ok: bool, f: nat)
      requires Valid()
      modifies this
      ensures Valid() && (ok <==> old(free) != [])
      ensures !ok ==> mem == old(mem) && free == old(free)
      ensures ok ==> 0 < f < |old(mem)| && f == old(free)[0] && free == old(free)[1..] && f !in free
      ensures ok ==> mem == old(mem)[f := old(mem)[f][0 := 0]]
    {
      if lastFreePage == 0 {
        return false, 0;
      }
      f := lastFreePage / PAGE;
      PopChain(mem, free, mem[f][0 := 0]);
      assert mem[f][0] == HeadOf(free[0 + 1..]);
      lastFreePage := mem[f][0];
      mem := mem[f := mem[f][0 := 0]];
      numPages := numPages - 1;
      free := free[1..];
      ok := true;
    }

    method FrameCalloc() returns (ok: bool, f: nat)
      requires Valid()
      modifies this
      ensures Valid() && (ok <==> old(free) != [])
      ensures !ok ==> mem == old(mem) && free == old(free)
      ensures ok ==> 0 < f < |old(mem)| && f == old(free)[0] && free == old(free)[1..] && f !in free
      ensures ok ==> mem == old(mem)[f := ZeroFrame()]
    {
      ok, f := FrameAlloc();
      if ok {
        KeepChain(mem, free, f, ZeroFrame());
        mem := mem[f := ZeroFrame()];
      }
    }

    /** Links a frame in front of the free list. */
    method FrameFree(f: nat)
      requires Valid() && 0 < f < |mem| && f !in free
      modifies this
      ensures Valid() && free == [f] + old(free)
      ensures mem == old(mem)[f := old(mem)[f][0 := HeadOf(old(free))]]
    {
      PushChain(mem, free, f);
      mem := mem[f := mem[f][0 := lastFreePage]];
      lastFreePage := f * PAGE;
      numPages := numPages + 1;
      free := [f] + free;
    }

    method LinkPde(dir: nat, cur: nat, pd: nat)
      requires Valid() && dir < |mem| && cur < |mem| && pd < ENTRIES && dir !in free
      modifies this`mem
      ensures Valid() && mem == old(mem)[dir := old(mem)[dir][pd := old(mem)[cur][pd]]]
    {
      KeepChain(mem, free, dir, mem[dir][pd := mem[cur][pd]]);
      mem := mem[dir := mem[dir][pd := mem[cur][pd]]];
    }
  
    // Copies one private directory entry: a new table, and a new frame with a copy for every page it maps.
    method ClonePde(dir: nat, cur: nat, pd: nat, ghost mem0: seq<Frame>, ghost free0: seq<nat>, ghost owner: map<nat, Node>)
      returns (ok: bool, ghost owner': map<nat, Node>)
      requires Valid() && Building(mem0, free0, cur, mem, free, dir, owner, pd)
      requires Private(pd) && cur < |mem0| && Present(mem0[cur][pd])
      modifies this
      ensures Valid() && |mem| == |old(mem)|
      ensures ok <==> |old(free)| >= 1 + PagesBelow(mem0, cur, pd, ENTRIES)
      ensures ok ==> |old(free)| == |free| + 1 + PagesBelow(mem0, cur, pd, ENTRIES)
      ensures ok ==> Building(mem0, free0, cur, mem, free, dir, owner', pd + 1)
    {
      hide Chain, Building, BuildingTable, Pte;
      Untouched(mem0, free0, cur, mem, free, dir, owner, pd);
      owner' := owner;
      var dirFlags := mem[cur][pd] % PAGE;
      var fromTable := mem[cur][pd] / PAGE;
      FlagsPresent(mem[cur][pd]);
      ghost var m1, f1 := mem, free;
      var t;
      ok, t := FrameCalloc();
      if !ok {
        return;
      }
      StartTable(mem0, free0, cur, m1, f1, dir, owner, pd, t,
                 m1[t := ZeroFrame()][dir := m1[dir][pd := Entry(t, dirFlags)]], free);
      Put(dir, pd, Entry(t, dirFlags));
      owner' := owner[t := Table(pd)];
      var pt := 0;
      while pt < ENTRIES
        invariant 0 <= pt <= ENTRIES && Valid() && |mem| == |old(mem)|
        invariant BuildingTable(mem0, free0, cur, mem, free, dir, owner', pd, t, pt)
        invariant ok && |old(free)| == |free| + 1 + PagesBelow(mem0, cur, pd, pt)
      {
        PagesGrow(mem0, cur, pd, pt + 1, ENTRIES);
        PteReads(mem0, free0, cur, mem, free, dir, owner', pd, t, pt);
        var pte := mem[fromTable][pt];
        if pte % 2 == 1 {
          var tableFlags := pte % PAGE;
          FlagsPresent(pte);
          ghost var m2, f2 := mem, free;
          var page;
          ok, page := FrameCalloc();
          if !ok {
            return;
          }
          CopyPage(mem0, free0, cur, m2, f2, dir, owner', pd, t, pt, page,
                   m2[page := mem0[pte / PAGE]][t := m2[t][pt := Entry(page, tableFlags)]], free);
          Fill(page, mem[pte / PAGE]);
          Put(t, pt, Entry(page, tableFlags));
          assert mem == m2[page := mem0[pte / PAGE]][t := m2[t][pt := Entry(page, tableFlags)]];
          owner' := owner'[page := Page(pd, pt)];
        } else {
          SkipPage(mem0, free0, cur, mem, free, dir, owner', pd, t, pt);
        }
        pt := pt + 1;
      }
      TableDone(mem0, free0, cur, mem, free, dir, owner', pd, t);
    }

    // A store through the reserved page.
    method Put(f: nat, i: nat, w: nat)
      requires Valid() && f < |mem| && i < ENTRIES && f !in free
      modifies this`mem
      ensures Valid() && mem == old(mem)[f := old(mem)[f][i := w]]
    {
      KeepChain(mem, free, f, mem[f][i := w]);
      mem := mem[f := mem[f][i := w]];
    }

    method Fill(f: nat, page: Frame)
      requires Valid() && f < |mem| && f !in free
      modifies this`mem
      ensures Valid() && mem == old(mem)[f := page]
    {
      KeepChain(mem, free, f, page);
      mem := mem[f := page];
    }

    /** clone_directory: fork's address space. Every page mapped in a private range of the current directory is mapped
        in the new one with the same flags to a frame of its own with the same contents, every shared range is shared,
        and exactly the frames of the new directory have left the free list. It succeeds exactly when there are enough:
        one for the directory and one for each private table and page. */
    method CloneDirectory(cur: nat) returns (ok: bool, dir: nat, ghost owner: map<nat, Node>)
      requires Valid() && Readable(mem, cur, free)
      modifies this
      ensures Valid() && |mem| == |old(mem)|
      ensures ok <==> |old(free)| >= CloneCost(old(mem), cur)
      ensures ok ==> |old(free)| == |free| + CloneCost(old(mem), cur)
      ensures ok ==>
                && Taken(old(mem), old(free), mem, free, owner)
                && Owns(mem, dir, owner) && dir in owner && owner[dir] == Root
                && ClonedRange(old(mem), cur, mem, dir, RECURSIVE)
                && mem[dir][RECURSIVE] == Entry(dir, 3)
    {
      hide Chain, Readable, Owns, ClonedRange, Pte, Taken, ClonedPde, ClonedPte, PagesBelow;
      ghost var mem0, free0 := mem, free;
      owner := map[];
      ok, dir := FrameCalloc();
      if !ok {
        return;
      }
      owner := map[dir := Root];
      StartDirectory(mem0, free0, cur, dir, mem, free);
      var pd := 0;
      while pd < RECURSIVE
        invariant 0 <= pd <= RECURSIVE && Valid() && ok && |mem| == |mem0|
        invariant Building(mem0, free0, cur, mem, free, dir, owner, pd)
        invariant |free0| == |free| + 1 + FramesBelow(mem0, cur, pd)
      {
        FramesGrow(mem0, cur, pd + 1, RECURSIVE);
        CurrentPde(mem0, free0, cur, mem, free, dir, owner, pd);
        if mem[cur][pd] % 2 == 1 {
          if pd < USER_STACK_PDE || (HEAP_START_PDE <= pd && pd < HEAP_END_PDE) {
            ghost var m1 := mem;
            LinkPde(dir, cur, pd);
            LinkStep(mem0, free0, cur, m1, free, dir, owner, pd, m1[cur][pd], mem);
          } else {
            ok, owner := ClonePde(dir, cur, pd, mem0, free0, owner);
            if !ok {
              return;
            }
          }
        } else {
          AbsentStep(mem0, free0, cur, mem, free, dir, owner, pd);
        }
        pd := pd + 1;
      }
      CurrentPde(mem0, free0, cur, mem, free, dir, owner, RECURSIVE);
      RecursiveStep(mem0, free0, cur, mem, free, dir, owner);
      Put(dir, RECURSIVE, Entry(dir, 3));
    }

    /** free_directory: exactly the private frames of the directory, and the directory itself, join the free list. */
    method FreeDirectory(dir: nat, ghost owner: map<nat, Node>)
      requires Valid() && Owns(mem, dir, owner) && Solid(mem, dir)
      requires dir in owner && owner[dir] == Root && (forall f :: f in owner ==> f !in free)
      modifies this
      ensures Valid() && |mem| == |old(mem)|
      ensures forall f :: f in free <==> f in old(free) || f in owner
      ensures |free| == |old(free)| + |owner|
      ensures forall f :: 0 <= f < |mem| && f !in owner ==> mem[f] == old(mem)[f]
    {
      hide Chain, Owns, Solid;
      ghost var mem0, free0 := mem, free;
      StartFreeing(mem0, free0, dir, owner);
      var pd := 0;
      while pd < RECURSIVE
        invariant 0 <= pd <= RECURSIVE && Valid()
        invariant Freeing(mem0, free0, dir, owner, mem, free, pd, 0)
      {
        if pd < USER_STACK_PDE || (HEAP_START_PDE <= pd && pd < HEAP_END_PDE) {
          SkipShared(mem0, free0, dir, owner, mem, free, pd);
        } else {
          FreePde(dir, pd, mem0, free0, owner);
        }
        pd := pd + 1;
      }
      LastFrame(mem0, free0, dir, owner, mem, free);
      FrameFree(dir);
    }

    method FreePde(dir: nat, pd: nat, ghost mem0: seq<Frame>, ghost free0: seq<nat>, ghost owner: map<nat, Node>)
      requires Valid() && Private(pd) && Freeing(mem0, free0, dir, owner, mem, free, pd, 0)
      modifies this
      ensures Valid() && Freeing(mem0, free0, dir, owner, mem, free, pd + 1, 0)
    {
      hide Chain, Owns, Solid, Freeing, FrameAt;
      DirIntact(mem0, free0, dir, owner, mem, free, pd);
      var pde := mem[dir][pd];
      if pde % 2 == 1 {
        var t := pde / PAGE;
        var pt := 0;
        while pt < ENTRIES
          invariant 0 <= pt <= ENTRIES && Valid() && pde == WordOf(mem0, dir, pd)
          invariant Freeing(mem0, free0, dir, owner, mem, free, pd, pt)
        {
          PageIntact(mem0, free0, dir, owner, mem, free, pd, pt);
          var pte := mem[t][pt];
          ghost var m1, f1 := mem, free;
          if pte % 2 == 1 {
            FrameFree(pte / PAGE);
            Gone(mem0, free0, dir, owner, m1, f1, pd, pt, Page(pd, pt), pd, pt + 1, pte / PAGE, mem, free);
          } else {
            NothingGone(mem0, free0, dir, owner, m1, f1, pd, pt, Page(pd, pt), pd, pt + 1);
          }
          pt := pt + 1;
        }
        PageIntact(mem0, free0, dir, owner, mem, free, pd, ENTRIES);
        ghost var m1, f1 := mem, free;
        FrameFree(t);
        Gone(mem0, free0, dir, owner, m1, f1, pd, ENTRIES, Table(pd), pd + 1, 0, t, mem, free);
      } else {
        NoTable(mem0, free0, dir, owner, mem, free, pd);
      }
    }

    /** Forking and then freeing the child's directory gives every frame back: the free frames and their number are
        what they were, and no frame in use has changed. */
    method CloneAndFree(cur: nat) returns (ok: bool)
      requires Valid() && Readable(mem, cur, free)
      modifies this
      ensures Valid() && (ok <==> old(numPages) >= CloneCost(old(mem), cur))
      ensures ok ==> (forall f :: f in free <==> f in old(free)) && numPages == old(numPages)
      ensures ok ==> |mem| == |old(mem)| && forall f :: 0 <= f < |mem| && f !in old(free) ==> mem[f] == old(mem)[f]
    {
      hide Chain, Readable, Owns, ClonedRange, Solid, CloneCost;
      var dir;
      ghost var owner;
      ghost var mem0, free0 := mem, free;
      ok, dir, owner := CloneDirectory(cur);
      if ok {
        ChainParts(mem0, free0);
        TakenFresh(mem0, free0, mem, free, owner);
        TakenCount(mem0, free0, mem, free, owner);
        ClonedSolid(mem0, cur, mem, dir);
        FreeDirectory(dir, owner);
      }
    }
  }

  // The old directory and its tables and pages are outside the free list, so cloning has not touched them.
  lemma Untouched(mem0: seq<Frame>, free0: seq<nat>, cur: nat, mem: seq<Frame>, free: seq<nat>,
                  dir: nat, owner: map<nat, Node>, pd: nat)
    requires Building(mem0, free0, cur, mem, free, dir, owner, pd) && Private(pd)
    requires cur < |mem0| && Present(mem0[cur][pd])
    ensures cur < |mem| == |mem0| && dir < |mem| && mem[cur] == mem0[cur] && dir !in free && cur != dir
    ensures FrameOf(mem0[cur][pd]) < |mem|
  {
    hide Chain, Owns, Taken, ClonedRange;
    NextFrame(mem0, free0, cur, mem, free, dir, owner);
  }

  lemma PteReads(mem0: seq<Frame>, free0: seq<nat>, cur: nat, mem: seq<Frame>, free: seq<nat>,
                 dir: nat, owner: map<nat, Node>, pd: nat, t: nat, pt: nat)
    requires BuildingTable(mem0, free0, cur, mem, free, dir, owner, pd, t, pt) && pt < ENTRIES
    requires cur < |mem0| && Present(mem0[cur][pd])
    ensures cur < |mem| == |mem0| && FrameOf(mem0[cur][pd]) < |mem| && t < |mem| && t !in free && dir !in free
    ensures var e := mem[FrameOf(mem0[cur][pd])][pt];
            if Present(e) then
              && Pte(mem0, cur, pd, pt) == e && FrameOf(e) < |mem| && mem[FrameOf(e)] == mem0[FrameOf(e)]
              && FrameOf(e) !in free0
            else Pte(mem0, cur, pd, pt) == 0
    ensures forall f :: f in free ==> f in free0 && f != t && f != dir
    ensures t != dir
  {
    hide Chain, ClonedRange, ClonedPde, ClonedPages, Taken;
    NextFrame(mem0, free0, cur, mem, free, dir, owner);
    TableElsewhere(mem, dir, owner, pd);
    var e := mem0[FrameOf(mem0[cur][pd])][pt];
    if Present(e) {
      assert Pte(mem0, cur, pd, pt) == e;
    }
  }

  lemma TableDone(mem0: seq<Frame>, free0: seq<nat>, cur: nat, mem: seq<Frame>, free: seq<nat>,
                  dir: nat, owner: map<nat, Node>, pd: nat, t: nat)
    requires BuildingTable(mem0, free0, cur, mem, free, dir, owner, pd, t, ENTRIES)
    ensures Building(mem0, free0, cur, mem, free, dir, owner, pd + 1)
  {
    hide Underway, ClonedPte, ClonedPde, FrameAt;
  }

  lemma StartDirectory(mem0: seq<Frame>, free0: seq<nat>, cur: nat, dir: nat, mem: seq<Frame>, free: seq<nat>)
    requires Chain(mem0, free0) && Readable(mem0, cur, free0) && free0 != []
    requires dir == free0[0] && free == free0[1..] && mem == mem0[dir := ZeroFrame()]
    ensures Building(mem0, free0, cur, mem, free, dir, map[dir := Root], 0)
  {
    assert free0[..1] == [dir];
    forall n | ValidNode(n) ensures FrameAt(mem, dir, n) == if n == Root then dir else 0 {
    }
  }

  lemma CurrentPde(mem0: seq<Frame>, free0: seq<nat>, cur: nat, mem: seq<Frame>, free: seq<nat>,
                   dir: nat, owner: map<nat, Node>, pd: nat)
    requires Building(mem0, free0, cur, mem, free, dir, owner, pd)
    ensures cur < |mem| == |mem0| && dir < |mem| && mem[cur] == mem0[cur] && dir !in free
  {
    hide Chain, Readable, Owns, Taken, ClonedRange;
    NextFrame(mem0, free0, cur, mem, free, dir, owner);
  }

  lemma AbsentStep(mem0: seq<Frame>, free0: seq<nat>, cur: nat, mem: seq<Frame>, free: seq<nat>,
                   dir: nat, owner: map<nat, Node>, pd: nat)
    requires Building(mem0, free0, cur, mem, free, dir, owner, pd) && pd < RECURSIVE
    requires cur < |mem0| && !Present(mem0[cur][pd])
    ensures Building(mem0, free0, cur, mem, free, dir, owner, pd + 1)
  {
    hide Underway;
    assert ClonedPde(mem0, cur, mem, dir, pd);
    forall pt: nat | pt < ENTRIES ensures ClonedPte(mem0, cur, mem, dir, pd, pt) {
    }
  }

  lemma LinkStep(mem0: seq<Frame>, free0: seq<nat>, cur: nat, mem: seq<Frame>, free: seq<nat>,
                 dir: nat, owner: map<nat, Node>, pd: nat, e: nat, mem': seq<Frame>)
    requires Building(mem0, free0, cur, mem, free, dir, owner, pd)
    requires cur < |mem0| && pd < RECURSIVE && Linked(pd) && e == mem0[cur][pd] && Present(e)
    requires dir < |mem| && mem' == mem[dir := mem[dir][pd := e]]
    ensures Building(mem0, free0, cur, mem', free, dir, owner, pd + 1)
  {
    hide Chain, Readable, Owns, Taken, ClonedPde, ClonedPte;
    ShareStep(mem0, free0, cur, mem, free, dir, owner, pd, e, mem');
    LinkedPde(mem0, cur, mem', dir, pd);
  }

  lemma LinkedPde(mem0: seq<Frame>, cur: nat, mem: seq<Frame>, dir: nat, pd: nat)
    requires cur < |mem0| && dir < |mem| && pd < ENTRIES && Linked(pd)
    requires Present(mem0[cur][pd]) && mem[dir][pd] == mem0[cur][pd]
    ensures ClonedPde(mem0, cur, mem, dir, pd)
  {
  }

  // Writing a shared entry of the new directory keeps everything built so far.
  lemma ShareStep(mem0: seq<Frame>, free0: seq<nat>, cur: nat, mem: seq<Frame>, free: seq<nat>,
                  dir: nat, owner: map<nat, Node>, pd: nat, e: nat, mem': seq<Frame>)
    requires Building(mem0, free0, cur, mem, free, dir, owner, pd) && pd < ENTRIES && !Private(pd)
    requires mem' == mem[dir := mem[dir][pd := e]]
    ensures Owns(mem', dir, owner) && Taken(mem0, free0, mem', free, owner)
    ensures forall a: nat :: a < pd ==> ClonedPde(mem0, cur, mem', dir, a)
    ensures forall a: nat, b: nat :: a < pd && Private(a) && b < ENTRIES ==> ClonedPte(mem0, cur, mem', dir, a, b)
  {
    hide Chain, Readable, Pte, ClonedPte, FrameAt;
    NextFrame(mem0, free0, cur, mem, free, dir, owner);
    SetShared(mem, dir, owner, pd, e);
    forall a: nat, b: nat | a < pd && Private(a) && b < ENTRIES ensures ClonedPte(mem0, cur, mem', dir, a, b) {
      KeepCloned(mem0, cur, mem, mem', dir, owner, a, b);
    }
    forall a: nat | a < pd ensures ClonedPde(mem0, cur, mem', dir, a) {
      assert ClonedPde(mem0, cur, mem, dir, a);
    }
  }

  lemma RecursiveStep(mem0: seq<Frame>, free0: seq<nat>, cur: nat, mem: seq<Frame>, free: seq<nat>,
                      dir: nat, owner: map<nat, Node>)
    requires Building(mem0, free0, cur, mem, free, dir, owner, RECURSIVE)
    ensures var mem' := mem[dir := mem[dir][RECURSIVE := Entry(dir, 3)]];
            && Taken(mem0, free0, mem', free, owner) && Owns(mem', dir, owner)
            && dir in owner && owner[dir] == Root && ClonedRange(mem0, cur, mem', dir, RECURSIVE)
  {
    var mem' := mem[dir := mem[dir][RECURSIVE := Entry(dir, 3)]];
    ShareStep(mem0, free0, cur, mem, free, dir, owner, RECURSIVE, Entry(dir, 3), mem');
  }

  // ---- freeing ---------------------------------------------------------------

  // No present private entry names frame 0.
  ghost predicate Solid(mem: seq<Frame>, dir: nat) {
    && (forall pd: nat :: Private(pd) && Present(WordOf(mem, dir, pd)) ==> FrameOf(WordOf(mem, dir, pd)) != 0)
    && (forall pd: nat, pt: nat :: Private(pd) && pt < ENTRIES && Pte(mem, dir, pd, pt) != 0 ==>
                                     FrameOf(Pte(mem, dir, pd, pt)) != 0)
  }

  lemma ClonedSolid(mem0: seq<Frame>, cur: nat, mem: seq<Frame>, dir: nat)
    requires ClonedRange(mem0, cur, mem, dir, RECURSIVE)
    ensures Solid(mem, dir)
  {
    hide Pte;
    forall pd: nat | Private(pd) && Present(WordOf(mem, dir, pd)) ensures FrameOf(WordOf(mem, dir, pd)) != 0 {
      assert ClonedPde(mem0, cur, mem, dir, pd);
    }
    forall pd: nat, pt: nat | Private(pd) && pt < ENTRIES && Pte(mem, dir, pd, pt) != 0
      ensures FrameOf(Pte(mem, dir, pd, pt)) != 0
    {
      assert ClonedPte(mem0, cur, mem, dir, pd, pt);
    }
  }

  // Number of frames taken.
  lemma TakenCount(mem0: seq<Frame>, free0: seq<nat>, mem: seq<Frame>, free: seq<nat>, owner: map<nat, Node>)
    requires Taken(mem0, free0, mem, free, owner) && Distinct(free0)
    ensures |free| + |owner| == |free0|
    ensures forall f :: f in free0 <==> f in free || f in owner
  {
    var taken := free0[..|free0| - |free|];
    assert free0 == taken + free;
    DistinctCount(taken, owner.Keys);
  }

  lemma {:induction false} DistinctCount(s: seq<nat>, keys: set<nat>)
    requires Distinct(s) && forall f :: f in keys <==> f in s
    ensures |keys| == |s|
  {
    if s == [] {
      assert keys == {};
    } else {
      var x, r := s[0], s[1..];
      assert s == [x] + r;
      DistinctCount(r, keys - {x});
    }
  }

  // Has node n been freed when the walk stands at page pt of entry pd?
  predicate Done(n: Node, pd: nat, pt: nat) {
    match n
    case Root => false
    case Table(a) => a < pd
    case Page(a, b) => a < pd || (a == pd && b < pt)
  }

  ghost function GoneAt(owner: map<nat, Node>, pd: nat, pt: nat): set<nat> {
    set f | f in owner && Done(owner[f], pd, pt)
  }

  ghost predicate Freeing(mem0: seq<Frame>, free0: seq<nat>, dir: nat, owner: map<nat, Node>,
                          mem: seq<Frame>, free: seq<nat>, pd: nat, pt: nat)
  {
    && |mem| == |mem0|
    && Owns(mem0, dir, owner) && Solid(mem0, dir) && dir in owner && owner[dir] == Root
    && (forall f :: f in owner ==> f !in free0)
    && (forall f :: f in free <==> f in free0 || f in GoneAt(owner, pd, pt))
    && |free| == |free0| + |GoneAt(owner, pd, pt)|
    && (forall f :: 0 <= f < |mem| && f !in GoneAt(owner, pd, pt) ==> mem[f] == mem0[f])
  }

  lemma StartFreeing(mem0: seq<Frame>, free0: seq<nat>, dir: nat, owner: map<nat, Node>)
    requires Owns(mem0, dir, owner) && Solid(mem0, dir) && dir in owner && owner[dir] == Root
    requires forall f :: f in owner ==> f !in free0
    ensures Freeing(mem0, free0, dir, owner, mem0, free0, 0, 0)
  {
    hide Owns, Solid;
    assert GoneAt(owner, 0, 0) == {};
  }

  lemma SkipShared(mem0: seq<Frame>, free0: seq<nat>, dir: nat, owner: map<nat, Node>,
                   mem: seq<Frame>, free: seq<nat>, pd: nat)
    requires Freeing(mem0, free0, dir, owner, mem, free, pd, 0) && Linked(pd)
    ensures Freeing(mem0, free0, dir, owner, mem, free, pd + 1, 0)
  {
    hide FrameAt, Solid;
    assert GoneAt(owner, pd + 1, 0) == GoneAt(owner, pd, 0);
  }

  // The directory is freed last, so its entries still read as before.
  lemma DirIntact(mem0: seq<Frame>, free0: seq<nat>, dir: nat, owner: map<nat, Node>,
                  mem: seq<Frame>, free: seq<nat>, pd: nat)
    requires Freeing(mem0, free0, dir, owner, mem, free, pd, 0)
    ensures dir < |mem| == |mem0| && mem[dir] == mem0[dir]
  {
    hide FrameAt;
  }

  // A table is freed after its pages, so its entries still read as before.
  lemma PageIntact(mem0: seq<Frame>, free0: seq<nat>, dir: nat, owner: map<nat, Node>,
                   mem: seq<Frame>, free: seq<nat>, pd: nat, pt: nat)
    requires Freeing(mem0, free0, dir, owner, mem, free, pd, pt) && Private(pd) && pt <= ENTRIES
    requires Present(WordOf(mem0, dir, pd))
    ensures var t := FrameOf(WordOf(mem0, dir, pd));
            && 0 < t < |mem| == |mem0| && mem[t] == mem0[t] && t == FrameAt(mem0, dir, Table(pd)) && t !in free
            && (pt < ENTRIES && Present(mem[t][pt]) ==>
                  && FrameOf(mem[t][pt]) == FrameAt(mem0, dir, Page(pd, pt))
                  && 0 < FrameOf(mem[t][pt]) < |mem| && FrameOf(mem[t][pt]) !in free)
            && (pt < ENTRIES && !Present(mem[t][pt]) ==> FrameAt(mem0, dir, Page(pd, pt)) == 0)
  {
    var t := FrameOf(WordOf(mem0, dir, pd));
    assert ValidNode(Table(pd)) && FrameAt(mem0, dir, Table(pd)) == t;
    assert owner[t] == Table(pd);
    if pt < ENTRIES && Present(mem[t][pt]) {
      assert ValidNode(Page(pd, pt)) && FrameAt(mem0, dir, Page(pd, pt)) == FrameOf(mem[t][pt]);
    }
  }

  /** Freeing the frame of the next node moves the walk past that node. */
  lemma Gone(mem0: seq<Frame>, free0: seq<nat>, dir: nat, owner: map<nat, Node>, mem: seq<Frame>, free: seq<nat>,
             pd: nat, pt: nat, n: Node, pd': nat, pt': nat, f: nat, mem': seq<Frame>, free': seq<nat>)
    requires Freeing(mem0, free0, dir, owner, mem, free, pd, pt) && ValidNode(n) && n != Root
    requires 0 < f < |mem| && f == FrameAt(mem0, dir, n) && f !in free
    requires Next(n, pd, pt, pd', pt')
    requires free' == [f] + free && |mem'| == |mem| && mem' == mem[f := mem'[f]]
    ensures Freeing(mem0, free0, dir, owner, mem', free', pd', pt')
  {
    assert owner[f] == n;
    hide FrameAt, Solid;
    assert GoneAt(owner, pd', pt') == GoneAt(owner, pd, pt) + {f} by {
      forall g | g in owner ensures Done(owner[g], pd', pt') <==> Done(owner[g], pd, pt) || g == f {
        NextDone(n, pd, pt, pd', pt', owner[g]);
      }
    }
    assert f !in GoneAt(owner, pd, pt);
  }

  // n is the node between the two positions of the walk.
  predicate Next(n: Node, pd: nat, pt: nat, pd': nat, pt': nat) {
    (n == Page(pd, pt) && pd' == pd && pt' == pt + 1) || (n == Table(pd) && pt == ENTRIES && pd' == pd + 1 && pt' == 0)
  }

  lemma NextDone(n: Node, pd: nat, pt: nat, pd': nat, pt': nat, m: Node)
    requires Next(n, pd, pt, pd', pt') && ValidNode(m)
    ensures Done(m, pd', pt') <==> Done(m, pd, pt) || m == n
  {
  }

  lemma NothingGone(mem0: seq<Frame>, free0: seq<nat>, dir: nat, owner: map<nat, Node>, mem: seq<Frame>, free: seq<nat>,
                    pd: nat, pt: nat, n: Node, pd': nat, pt': nat)
    requires Freeing(mem0, free0, dir, owner, mem, free, pd, pt) && FrameAt(mem0, dir, n) == 0
    requires Next(n, pd, pt, pd', pt')
    ensures Freeing(mem0, free0, dir, owner, mem, free, pd', pt')
  {
    hide FrameAt, Solid;
    assert GoneAt(owner, pd', pt') == GoneAt(owner, pd, pt) by {
      forall g | g in owner ensures Done(owner[g], pd', pt') <==> Done(owner[g], pd, pt) {
        NextDone(n, pd, pt, pd', pt', owner[g]);
      }
    }
  }

  lemma NoTable(mem0: seq<Frame>, free0: seq<nat>, dir: nat, owner: map<nat, Node>, mem: seq<Frame>, free: seq<nat>, pd: nat)
    requires Freeing(mem0, free0, dir, owner, mem, free, pd, 0) && Private(pd) && !Present(WordOf(mem0, dir, pd))
    ensures Freeing(mem0, free0, dir, owner, mem, free, pd + 1, 0)
  {
    hide Solid;
    assert GoneAt(owner, pd + 1, 0) == GoneAt(owner, pd, 0) by {
      forall g | g in owner ensures Done(owner[g], pd + 1, 0) <==> Done(owner[g], pd, 0) {
        assert FrameAt(mem0, dir, owner[g]) == g;
      }
    }
  }

  lemma LastFrame(mem0: seq<Frame>, free0: seq<nat>, dir: nat, owner: map<nat, Node>, mem: seq<Frame>, free: seq<nat>)
    requires Freeing(mem0, free0, dir, owner, mem, free, RECURSIVE, 0)
    ensures 0 < dir < |mem| == |mem0| && dir !in free
    ensures GoneAt(owner, RECURSIVE, 0) + {dir} == owner.Keys && |GoneAt(owner, RECURSIVE, 0)| + 1 == |owner|
  {
    forall g | g in owner ensures Done(owner[g], RECURSIVE, 0) <==> g != dir {
      assert FrameAt(mem0, dir, owner[g]) == g;
    }
    hide FrameAt, Solid;
    assert GoneAt(owner, RECURSIVE, 0) + {dir} == owner.Keys;
    assert dir !in GoneAt(owner, RECURSIVE, 0);
  }
}
