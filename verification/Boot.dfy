/**
The start of memory management: the usable memory becomes the free list, and the
first directory maps the kernel at its own addresses. What comes out is a memory in
which one process, with no private page, sees the kernel's pages.
*/
module Boot {
  import opened Paging
  import opened Spaces
  import opened Mapping
  import opened Processes

  // The video memory, from which on the kernel's frames are kept out of the free list.
  const CRT_ADDR := 0xB8000
  const CRT_FRAME := 0xB8

  // Directory index of the reserved page, 0xFFBFE000 >> 22.
  const RESV_PDE := 1022

  // ---- the free list ------------------------------------------------------------------

  datatype Region = Region(base: nat, length: nat, usable: bool)

  // Frames that begin within a region.
  predicate In(r: Region, f: nat) {
    r.usable && r.base <= f * PAGE < r.base + r.length
  }

  predicate KernelFrame(f: nat, end: nat) {
    CRT_ADDR <= f * PAGE <= end
  }

  // A frame to be put on the free list.
  predicate Offered(r: Region, f: nat, end: nat) {
    In(r, f) && f != 0 && !KernelFrame(f, end)
  }

  ghost predicate RegionOk(r: Region, frames: nat) {
    r.usable ==> r.base % PAGE == 0 && r.base + r.length <= frames * PAGE
  }

  /** Exactly the frames offered join the free list, and those kept out stay as they are. */
  method ReserveRegion(m: Memory, r: Region, end: nat)
    requires m.Valid() && r.usable && RegionOk(r, |m.mem|) && forall f: nat :: In(r, f) ==> f !in m.free
    modifies m
    ensures m.Valid() && |m.mem| == |old(m.mem)|
    ensures forall f: nat :: f in m.free <==> f in old(m.free) || Offered(r, f, end)
    ensures forall f: nat :: 0 < f < |m.mem| && f !in m.free ==> m.mem[f] == old(m.mem)[f]
  {
    hide Chain;
    var ptr := r.base;
    while ptr - r.base < r.length
      invariant ptr >= r.base && ptr % PAGE == 0 && m.Valid() && |m.mem| == |old(m.mem)|
      invariant forall f: nat :: f in m.free <==> f in old(m.free) || (Offered(r, f, end) && f * PAGE < ptr)
      invariant forall f: nat :: 0 < f < |m.mem| && f !in m.free ==> m.mem[f] == old(m.mem)[f]
    {
      var f := ptr / PAGE;
      assert f * PAGE == ptr && In(r, f);
      if ptr == 0 {
        assert 0 !in m.free by { NoZero(m); }
        m.Put(r.base / PAGE, 0, 0);
      } else if CRT_ADDR <= ptr && ptr <= end {
        assert KernelFrame(f, end);
      } else {
        m.FrameFree(f);
      }
      Stride(ptr, f);
      ptr := ptr + PAGE;
    }
    forall f: nat | Offered(r, f, end) ensures f * PAGE < ptr {
    }
  }

  /** Which frames are free after boot: those of usable memory, other than frame 0 and those from 0xB8000 to the end of the
      kernel. The reserved page lies in the last directory entry but one. */
  lemma FreeAfterBoot(regions: seq<Region>, f: nat, end: nat)
    ensures Usable(regions, f, end) <==>
              && f != 0 && (f * 4096 < 0xB8000 || f * 4096 > end)
              && exists i :: 0 <= i < |regions| && regions[i].usable && regions[i].base <= f * 4096 < regions[i].base + regions[i].length
    ensures 0xFFBF_E000 / 0x40_0000 == RESV_PDE
  {
    if Usable(regions, f, end) {
      var i :| 0 <= i < |regions| && Offered(regions[i], f, end);
      assert regions[i].usable && regions[i].base <= f * 4096 < regions[i].base + regions[i].length;
    }
    if f != 0 && (f * 4096 < 0xB8000 || f * 4096 > end) {
      forall i | 0 <= i < |regions| && regions[i].usable && regions[i].base <= f * 4096 < regions[i].base + regions[i].length
        ensures Offered(regions[i], f, end)
      {
      }
    }
  }

  lemma NoZero(m: Memory)
    requires m.Valid()
    ensures 0 !in m.free
  {
  }

  // Between a frame and the next there is no other.
  lemma Stride(ptr: nat, f: nat)
    requires ptr == f * PAGE
    ensures forall g: nat :: g * PAGE < ptr + PAGE <==> g * PAGE < ptr || g == f
  {
  }

  ghost predicate Disjoint(regions: seq<Region>) {
    forall i, j, f: nat :: 0 <= i < j < |regions| && In(regions[i], f) ==> !In(regions[j], f)
  }

  ghost predicate Usable(regions: seq<Region>, f: nat, end: nat) {
    exists i :: 0 <= i < |regions| && Offered(regions[i], f, end)
  }

  /** reserve_memory: the free list has exactly the usable frames other than 0 and the kernel's. */
  method ReserveMemory(m: Memory, regions: seq<Region>, end: nat)
    requires m.Valid() && m.free == [] && Disjoint(regions)
    requires forall i :: 0 <= i < |regions| ==> RegionOk(regions[i], |m.mem|)
    modifies m
    ensures m.Valid() && |m.mem| == |old(m.mem)|
    ensures forall f: nat :: f in m.free <==> Usable(regions, f, end)
    ensures forall f: nat :: 0 < f < |m.mem| && f !in m.free ==> m.mem[f] == old(m.mem)[f]
  {
    hide Disjoint, Usable, In, Offered, Chain, RegionOk;
    UsableNone(end);
    var i := 0;
    while i < |regions|
      invariant 0 <= i <= |regions| && m.Valid() && |m.mem| == |old(m.mem)|
      invariant forall f: nat :: f in m.free <==> Usable(regions[..i], f, end)
      invariant forall f: nat :: 0 < f < |m.mem| && f !in m.free ==> m.mem[f] == old(m.mem)[f]
    {
      if regions[i].usable {
        forall f: nat | In(regions[i], f) ensures f !in m.free {
          NotYet(regions, i, f, end);
        }
        ReserveRegion(m, regions[i], end);
      }
      forall f: nat
        ensures Usable(regions[..i + 1], f, end) <==> Usable(regions[..i], f, end) || Offered(regions[i], f, end)
        ensures Offered(regions[i], f, end) ==> regions[i].usable
      {
        UsableMore(regions, i, f, end);
      }
      i := i + 1;
    }
    assert regions[..i] == regions;
  }

  lemma UsableMore(regions: seq<Region>, i: nat, f: nat, end: nat)
    requires i < |regions|
    ensures Usable(regions[..i + 1], f, end) <==> Usable(regions[..i], f, end) || Offered(regions[i], f, end)
    ensures Offered(regions[i], f, end) ==> regions[i].usable
  {
    var a, b := regions[..i], regions[..i + 1];
    assert b == a + [regions[i]];
    if Usable(a, f, end) {
      var j :| 0 <= j < |a| && Offered(a[j], f, end);
      assert Offered(b[j], f, end);
    }
    if Offered(regions[i], f, end) {
      assert Offered(b[i], f, end);
    }
    if Usable(b, f, end) {
      var j :| 0 <= j < |b| && Offered(b[j], f, end);
      assert j < i ==> Offered(a[j], f, end);
    }
  }

  lemma UsableNone(end: nat)
    ensures forall f: nat :: !Usable([], f, end)
  {
  }

  lemma NotYet(regions: seq<Region>, i: nat, f: nat, end: nat)
    requires Disjoint(regions) && i < |regions| && In(regions[i], f)
    ensures !Usable(regions[..i], f, end)
  {
    forall j | 0 <= j < i ensures !Offered(regions[..i][j], f, end) {
      assert regions[..i][j] == regions[j];
      assert !In(regions[j], f);
    }
  }

  // ---- the kernel at its own addresses ----------------------------------------------------

  // A space with a directory and nothing in it.
  ghost function Bare(dir: nat): Population {
    map[dir := map[dir := Root]]
  }

  // A frame for tables: in use, neither the directory nor the kernel's.
  ghost predicate ForTables(mem: seq<Frame>, free: seq<nat>, dir: nat, end: nat, f: nat) {
    0 < f < |mem| && f !in free && f != dir && !KernelFrame(f, end)
  }

  // The tables so far: each in a frame of its own, with exactly the entries of `links`.
  ghost predicate Tables(mem: seq<Frame>, free: seq<nat>, dir: nat, end: nat, links: Links) {
    && (forall a :: a in links.pdes ==>
                      Linked(a) && Present(links.pdes[a]) && ForTables(mem, free, dir, end, FrameOf(links.pdes[a])))
    && (forall a, b :: a in links.pdes && b in links.pdes && a != b ==> FrameOf(links.pdes[a]) != FrameOf(links.pdes[b]))
    && (forall a, b: nat :: a in links.pdes && b < ENTRIES ==>
                              WordOf(mem, FrameOf(links.pdes[a]), b) == if (a, b) in links.ptes then links.ptes[(a, b)] else 0)
  }

  ghost predicate DirIs(mem: seq<Frame>, dir: nat, links: Links) {
    forall a: nat :: a < ENTRIES ==> WordOf(mem, dir, a) == if a in links.pdes then links.pdes[a] else 0
  }

  function PageNumber(k: (nat, nat)): nat {
    k.0 * ENTRIES + k.1
  }

  // The kernel's pages below frame f are mapped to the frames of the same numbers.
  ghost predicate Below(links: Links, f: nat) {
    && (forall k :: k in links.ptes <==> k.1 < ENTRIES && CRT_FRAME <= PageNumber(k) < f)
    && (forall k :: k in links.ptes ==> k.0 in links.pdes && links.ptes[k] == Entry(PageNumber(k), 3))
    && (forall a: nat :: a in links.pdes <==> f > CRT_FRAME && a <= (f - 1) / ENTRIES)
  }

  // The kernel's frames are in use and outside the directory.
  ghost predicate KernelKeeps(mem: seq<Frame>, free: seq<nat>, dir: nat, end: nat) {
    && 0 < dir < |mem| && dir !in free && !KernelFrame(dir, end)
    && (forall f: nat :: KernelFrame(f, end) ==> f < |mem| && f !in free)
  }

  ghost predicate KernelMap(mem: seq<Frame>, free: seq<nat>, dir: nat, end: nat, links: Links) {
    KernelKeeps(mem, free, dir, end) && Tables(mem, free, dir, end, links) && DirIs(mem, dir, links)
  }

  // Tables that the first f frames need.
  function TablesFor(f: nat): nat {
    if f <= CRT_FRAME then 0 else (f - 1) / ENTRIES + 1
  }

  lemma NewTable(mem: seq<Frame>, free: seq<nat>, dir: nat, end: nat, links: Links, a: nat, t: nat, mem': seq<Frame>, free': seq<nat>)
    requires KernelMap(mem, free, dir, end, links) && a !in links.pdes && Linked(a)
    requires forall k :: k in links.ptes ==> k.0 in links.pdes
    requires t in free && 0 < t < |mem| && !KernelFrame(t, end) && t !in free' && forall f :: f in free' ==> f in free
    requires mem' == mem[t := ZeroFrame()][dir := mem[dir][a := Entry(t, 3)]]
    ensures KernelMap(mem', free', dir, end, links.(pdes := links.pdes[a := Entry(t, 3)]))
  {
    hide KernelFrame, Linked, FrameOf, Present;
    var links' := links.(pdes := links.pdes[a := Entry(t, 3)]);
    assert t != dir;
    forall b | b in links.pdes ensures ForTables(mem', free', dir, end, FrameOf(links.pdes[b])) && FrameOf(links.pdes[b]) != t {
      assert ForTables(mem, free, dir, end, FrameOf(links.pdes[b]));
    }
  }

  lemma NewPage(mem: seq<Frame>, free: seq<nat>, dir: nat, end: nat, links: Links, a: nat, b: nat, e: nat, mem': seq<Frame>)
    requires KernelMap(mem, free, dir, end, links) && a in links.pdes && b < ENTRIES && FrameOf(links.pdes[a]) < |mem|
    requires mem' == mem[FrameOf(links.pdes[a]) := mem[FrameOf(links.pdes[a])][b := e]]
    ensures KernelMap(mem', free, dir, end, links.(ptes := links.ptes[(a, b) := e]))
  {
    hide KernelFrame, Linked;
    assert ForTables(mem, free, dir, end, FrameOf(links.pdes[a]));
    forall c | c in links.pdes ensures ForTables(mem', free, dir, end, FrameOf(links.pdes[c])) {
      assert ForTables(mem, free, dir, end, FrameOf(links.pdes[c]));
    }
  }

  lemma {:induction false} BelowNext(links: Links, f: nat, links': Links)
    requires Below(links, f) && f >= CRT_FRAME
    requires var a, b := f / ENTRIES, f % ENTRIES;
             && links'.pdes.Keys == links.pdes.Keys + {a} && links'.ptes == links.ptes[(a, b) := Entry(f, 3)]
    ensures Below(links', f + 1)
  {
    var a, b := f / ENTRIES, f % ENTRIES;
    forall k: (nat, nat) | k.1 < ENTRIES ensures PageNumber(k) == f <==> k == (a, b) {
      PageOf(k, f);
    }
    hide PageNumber;
  }

  lemma PageOf(k: (nat, nat), f: nat)
    requires k.1 < ENTRIES
    ensures PageNumber(k) == f <==> k == (f / ENTRIES, f % ENTRIES)
  {
  }

  // Is there a table for the page of frame f yet?
  lemma TableThere(links: Links, f: nat)
    requires Below(links, f) && f >= CRT_FRAME
    ensures f / ENTRIES in links.pdes <==> TablesFor(f + 1) == TablesFor(f)
    ensures TablesFor(f) <= TablesFor(f + 1) <= TablesFor(f) + 1
  {
  }

  // The kernel's frames hold what they held, and frames have only left the free list.
  ghost predicate Intact(mem: seq<Frame>, free: seq<nat>, mem': seq<Frame>, free': seq<nat>, end: nat) {
    && |mem'| == |mem| && (forall f :: f in free' ==> f in free)
    && (forall f: nat :: KernelFrame(f, end) && f < |mem| ==> mem'[f] == mem[f])
  }

  /** identity_map_page: the page of frame f is mapped to it, in a new table when there is none yet. */
  method IdentityMapPage(m: Memory, dir: nat, f: nat, end: nat, ghost links: Links) returns (ok: bool, ghost links': Links)
    requires m.Valid() && KernelMap(m.mem, m.free, dir, end, links) && Below(links, f)
    requires CRT_FRAME <= f < USER_STACK_PDE * ENTRIES && forall g :: g in m.free ==> !KernelFrame(g, end)
    modifies m
    ensures m.Valid() && (ok <==> |old(m.free)| >= TablesFor(f + 1) - TablesFor(f))
    ensures ok ==>
              && KernelMap(m.mem, m.free, dir, end, links') && Below(links', f + 1)
              && |m.free| == |old(m.free)| - (TablesFor(f + 1) - TablesFor(f)) && Intact(old(m.mem), old(m.free), m.mem, m.free, end)
  {
    hide Chain, KernelMap, Below, KernelFrame;
    var a, b := f / ENTRIES, f % ENTRIES;
    links' := links;
    TableThere(links, f);
    Lookup(m.mem, m.free, dir, end, links, a);
    BelowKeys(links, f);
    ghost var m0, f0 := m.mem, m.free;
    ok := true;
    if m.mem[dir][a] % 2 == 0 {
      var t;
      ok, t := m.FrameCalloc();
      if !ok {
        return;
      }
      assert f0 == [t] + m.free && t in f0;
      m.Put(dir, a, Entry(t, 3));
      links' := links.(pdes := links.pdes[a := Entry(t, 3)]);
      NewTable(m0, f0, dir, end, links, a, t, m.mem, m.free);
      Lookup(m.mem, m.free, dir, end, links', a);
    }
    ghost var m1, links1 := m.mem, links';
    m.Put(m.mem[dir][a] / PAGE, b, Entry(f, 3));
    NewPage(m1, m.free, dir, end, links1, a, b, Entry(f, 3), m.mem);
    links' := links1.(ptes := links1.ptes[(a, b) := Entry(f, 3)]);
    BelowNext(links, f, links');
  }

  // The directory's entry for a table, as it is read.
  lemma Lookup(mem: seq<Frame>, free: seq<nat>, dir: nat, end: nat, links: Links, a: nat)
    requires KernelMap(mem, free, dir, end, links) && a < ENTRIES
    ensures 0 < dir < |mem| && dir !in free && !KernelFrame(dir, end)
    ensures if a in links.pdes then
              && mem[dir][a] == links.pdes[a] && mem[dir][a] % 2 == 1 && FrameOf(links.pdes[a]) < |mem|
              && FrameOf(links.pdes[a]) !in free && !KernelFrame(FrameOf(links.pdes[a]), end)
            else mem[dir][a] == 0
  {
    hide KernelFrame;
    if a in links.pdes {
      assert ForTables(mem, free, dir, end, FrameOf(links.pdes[a]));
    }
  }

  lemma BelowKeys(links: Links, f: nat)
    requires Below(links, f)
    ensures forall k :: k in links.ptes ==> k.0 in links.pdes
  {
    hide PageNumber;
  }

  /** identity_map_kernel, the first part: every page from the video memory to the kernel's end is mapped to itself. */
  method IdentityMapKernel(m: Memory, dir: nat, end: nat) returns (ok: bool, ghost links: Links)
    requires m.Valid() && KernelMap(m.mem, m.free, dir, end, Links(map[], map[])) && end < USER_STACK_PDE * ENTRIES * PAGE
    requires forall g :: g in m.free ==> !KernelFrame(g, end)
    modifies m
    ensures m.Valid() && (ok <==> |old(m.free)| >= TablesFor(end / PAGE + 1))
    ensures ok ==>
              && KernelMap(m.mem, m.free, dir, end, links) && Below(links, Last(end))
              && |m.free| == |old(m.free)| - TablesFor(end / PAGE + 1) && Intact(old(m.mem), old(m.free), m.mem, m.free, end)
  {
    hide Chain, KernelMap, Below, KernelFrame;
    links := Links(map[], map[]);
    ok := true;
    BelowNone();
    var f := CRT_FRAME;
    while f * PAGE <= end
      invariant CRT_FRAME <= f <= Last(end) && m.Valid() && ok
      invariant KernelMap(m.mem, m.free, dir, end, links) && Below(links, f)
      invariant |m.free| == |old(m.free)| - TablesFor(f) && Intact(old(m.mem), old(m.free), m.mem, m.free, end)
    {
      TablesGrow(f + 1, end / PAGE + 1);
      ok, links := IdentityMapPage(m, dir, f, end, links);
      if !ok {
        return;
      }
      f := f + 1;
    }
  }

  // One past the last page mapped.
  function Last(end: nat): nat {
    if end < CRT_ADDR then CRT_FRAME else end / PAGE + 1
  }

  lemma TablesGrow(f: nat, g: nat)
    requires f <= g
    ensures TablesFor(f) <= TablesFor(g)
  {
  }

  lemma BelowNone()
    ensures Below(Links(map[], map[]), CRT_FRAME)
  {
  }

  /** The kernel's addresses from 0xB8000 to its end translate to themselves. */
  lemma IdentityAt(links: Links, end: nat, addr: nat)
    requires Below(links, Last(end)) && 0xB8000 <= addr <= end
    ensures var k := (addr / 0x40_0000, addr / 0x1000 % 0x400);
            k in links.ptes && FrameOf(links.ptes[k]) == addr / 0x1000 && Present(links.ptes[k])
  {
    var f := addr / 0x1000;
    var k := (addr / 0x40_0000, f % 0x400);
    assert f / 0x400 == addr / 0x40_0000;
    PageOf(k, f);
  }

  // ---- the first process ----------------------------------------------------------------------

  lemma StartMap(mem: seq<Frame>, free: seq<nat>, dir: nat, end: nat)
    requires 0 < dir < |mem| && dir !in free && !KernelFrame(dir, end) && mem[dir] == ZeroFrame()
    requires forall f: nat :: KernelFrame(f, end) ==> f < |mem| && f !in free
    ensures KernelMap(mem, free, dir, end, Links(map[], map[]))
  {
  }

  lemma BareSpace(mem: seq<Frame>, free: seq<nat>, dir: nat, end: nat, links: Links)
    requires KernelMap(mem, free, dir, end, links)
    ensures Populated(mem, free, Bare(dir))
    ensures forall a: nat :: Private(a) ==> WordOf(mem, dir, a) == 0
    ensures forall a: nat, b: nat :: Private(a) && b < ENTRIES ==> Pte(mem, dir, a, b) == 0
  {
    hide KernelFrame, KernelKeeps;
    assert 0 < dir < |mem| && dir !in free by { Lookup(mem, free, dir, end, links, 0); }
    forall a: nat | Private(a) ensures WordOf(mem, dir, a) == 0 {
      assert a !in links.pdes;
    }
    hide Tables, DirIs;
    assert forall n :: ValidNode(n) ==> FrameAt(mem, dir, n) == if n == Root then dir else 0;
    assert Space(mem, dir, map[dir := Root]);
  }

  ghost function Image(links: Links, frames: seq<Frame>): map<(nat, nat), Frame> {
    map k: (nat, nat) | k in links.ptes && PageNumber(k) < |frames| :: frames[PageNumber(k)]
  }

  lemma CountedBare(free: seq<nat>, dir: nat, f: nat)
    ensures Counted(free, Bare(dir), f) <==> f in free || f == dir
  {
    assert dir in Bare(dir) && dir in Bare(dir)[dir];
  }

  lemma BareTables(mem: seq<Frame>, free: seq<nat>, dir: nat, end: nat, links: Links)
    requires KernelMap(mem, free, dir, end, links)
    requires forall k :: k in links.ptes ==> Present(links.ptes[k])
    ensures KernelTables(mem, free, Bare(dir), links)
  {
    hide KernelFrame, Counted, Linked, Bare;
    forall a | a in links.pdes ensures Outside(mem, free, Bare(dir), FrameOf(links.pdes[a])) {
      assert ForTables(mem, free, dir, end, FrameOf(links.pdes[a]));
      CountedBare(free, dir, FrameOf(links.pdes[a]));
    }
  }

  // A page of the kernel is mapped to its own frame, which is in use and holds no table.
  lemma OwnFrame(mem: seq<Frame>, free: seq<nat>, dir: nat, end: nat, links: Links, k: (nat, nat))
    requires KernelKeeps(mem, free, dir, end) && Below(links, Last(end)) && k in links.ptes
    ensures FrameOf(links.ptes[k]) == PageNumber(k) && Present(links.ptes[k]) && k.0 in links.pdes && k.1 < ENTRIES
    ensures KernelFrame(PageNumber(k), end) && Outside(mem, free, Bare(dir), PageNumber(k))
  {
    hide Bare, Counted;
    CountedBare(free, dir, PageNumber(k));
  }

  lemma BarePages(frames: seq<Frame>, mem: seq<Frame>, free: seq<nat>, dir: nat, end: nat, links: Links)
    requires KernelMap(mem, free, dir, end, links) && Below(links, Last(end)) && |mem| == |frames|
    requires forall f: nat :: KernelFrame(f, end) && f < |mem| ==> mem[f] == frames[f]
    ensures KernelPages(mem, free, Bare(dir), links, Image(links, frames)) && Image(links, frames).Keys == links.ptes.Keys
    ensures forall k :: k in links.ptes ==> Present(links.ptes[k])
  {
    hide Counted, Bare, PageNumber, KernelFrame, Below, Present, FrameOf;
    forall k | k in links.ptes
      ensures FrameOf(links.ptes[k]) == PageNumber(k) && Present(links.ptes[k]) && k.0 in links.pdes && k.1 < ENTRIES
      ensures KernelFrame(PageNumber(k), end) && Outside(mem, free, Bare(dir), PageNumber(k))
    {
      OwnFrame(mem, free, dir, end, links, k);
    }
    forall k, l | k in links.ptes && l in links.ptes && k != l ensures PageNumber(k) != PageNumber(l) {
      PageOf(k, PageNumber(l));
      PageOf(l, PageNumber(l));
    }
    forall a | a in links.pdes ensures !KernelFrame(FrameOf(links.pdes[a]), end) {
      assert ForTables(mem, free, dir, end, FrameOf(links.pdes[a]));
    }
    hide KernelMap;
  }

  // The last entry of a directory names the directory itself; no private page and no page of the kernel is seen through it.
  lemma LastEntry(mem: seq<Frame>, free: seq<nat>, spaces: Population, dir: nat, e: nat, mem': seq<Frame>)
    requires Populated(mem, free, spaces) && spaces.Keys == {dir} && dir < |mem| && mem' == mem[dir := mem[dir][RECURSIVE := e]]
    ensures Populated(mem', free, spaces) && Conserves(mem, free, spaces, mem', free, spaces)
    ensures forall a: nat, b: nat :: Private(a) && b < ENTRIES ==> Pte(mem', dir, a, b) == Pte(mem, dir, a, b)
  {
    var owner := spaces[dir];
    assert Space(mem, dir, owner);
    assert Counted(free, spaces, dir) by { assert dir in spaces && dir in spaces[dir]; }
    SetShared(mem, dir, owner, RECURSIVE, e);
    forall a: nat | Private(a) ensures WordOf(mem', dir, a) == WordOf(mem, dir, a) {
    }
    forall a: nat, b: nat | Private(a) && b < ENTRIES ensures Pte(mem', dir, a, b) == Pte(mem, dir, a, b) {
    }
    hide Owns, Pte, WordOf;
    assert Solid(mem', dir) by {
      forall a: nat | Private(a) && Present(WordOf(mem', dir, a)) ensures FrameOf(WordOf(mem', dir, a)) != 0 {
        assert Present(WordOf(mem, dir, a));
      }
    }
    assert Space(mem', dir, owner);
  }

  /** mem_init up to the switch to paging: there is room exactly when the usable frames are enough for the directory, the
      tables of the kernel's pages and the table of the reserved page. Then one process sees the kernel's pages, with the
      contents they had, and has no private page, and all other usable frames are free. */
  method MemInit(frames: seq<Frame>, regions: seq<Region>, end: nat)
    returns (ok: bool, m: Memory, dir: nat, ghost usable: set<nat>, ghost links: Links, ghost spaces: Population)
    requires Disjoint(regions) && forall i :: 0 <= i < |regions| ==> RegionOk(regions[i], |frames|)
    requires end / PAGE < |frames| && end < USER_STACK_PDE * ENTRIES * PAGE
    ensures fresh(m) && m.Valid()
    ensures forall f: nat :: f in usable <==> Usable(regions, f, end)
    ensures ok <==> |usable| >= 2 + TablesFor(end / PAGE + 1)
    ensures ok ==>
              && Below(links, Last(end)) && m.numPages == |usable| - 2 - TablesFor(end / PAGE + 1)
              && Shows(m.mem, m.free, spaces, links, map[0 := dir], World(map[0 := Proc({RESV_PDE}, map[])], Image(links, frames)))
  {
    hide Chain, KernelMap, Below, Usable, Disjoint, RegionOk, Shows, KernelFrame, Image;
    links, spaces := Links(map[], map[]), map[];
    m := new Memory(frames);
    ReserveMemory(m, regions, end);
    usable := set f | f in m.free;
    ghost var m0, f0 := m.mem, m.free;
    FreeKinds(m, regions, end, usable);
    ok, dir := m.FrameCalloc();
    if !ok {
      return;
    }
    assert f0 == [dir] + m.free && dir in f0;
    StartMap(m.mem, m.free, dir, end);
    ghost var m1, f1 := m.mem, m.free;
    ok, links := IdentityMapKernel(m, dir, end);
    if !ok {
      return;
    }
    ok, spaces := FirstProcess(m, dir, end, links, frames);
  }

  // Neither frame 0 nor a frame of the kernel is free.
  lemma FreeKinds(m: Memory, regions: seq<Region>, end: nat, usable: set<nat>)
    requires m.Valid() && (forall f: nat :: f in m.free <==> Usable(regions, f, end)) && usable == set f | f in m.free
    requires end / PAGE < |m.mem|
    ensures forall f :: f in m.free ==> !KernelFrame(f, end)
    ensures forall f: nat :: KernelFrame(f, end) ==> 0 < f < |m.mem|
    ensures |usable| == |m.free| == m.numPages
  {
    DistinctCount(m.free, usable);
    forall f | f in m.free ensures !KernelFrame(f, end) {
      assert Usable(regions, f, end);
    }
  }

  // The table of the reserved page and the last entry of the directory.
  method FirstProcess(m: Memory, dir: nat, end: nat, ghost links: Links, ghost frames: seq<Frame>)
    returns (ok: bool, ghost spaces: Population)
    requires m.Valid() && KernelMap(m.mem, m.free, dir, end, links) && Below(links, Last(end)) && |m.mem| == |frames|
    requires forall f: nat :: KernelFrame(f, end) && f < |m.mem| ==> m.mem[f] == frames[f]
    modifies m
    ensures m.Valid() && (ok <==> old(m.numPages) >= 1)
    ensures ok ==>
              && m.numPages == old(m.numPages) - 1
              && Shows(m.mem, m.free, spaces, links, map[0 := dir], World(map[0 := Proc({RESV_PDE}, map[])], Image(links, frames)))
  {
    hide Chain, KernelMap, Below, Image, KernelFrame, KernelTables, KernelPages, Populated, Conserves, Pte, SameView,
         OthersKept, ShowsProc, Resident;
    BareSpace(m.mem, m.free, dir, end, links);
    BarePages(frames, m.mem, m.free, dir, end, links);
    BareTables(m.mem, m.free, dir, end, links);
    ghost var m0, f0 := m.mem, m.free;
    ok, spaces := EnsureTable(m, dir, RESV_PDE, 3, Bare(dir));
    if ok {
      KernelKept(m0, f0, Bare(dir), m.mem, m.free, spaces, links, Image(links, frames));
      ghost var m1 := m.mem;
      assert dir !in m.free by { Walk(m1, m.free, spaces, dir, RESV_PDE, 0); }
      m.Put(dir, RECURSIVE, Entry(dir, 3));
      LastEntry(m1, m.free, spaces, dir, Entry(dir, 3), m.mem);
      KernelKept(m1, m.free, spaces, m.mem, m.free, spaces, links, Image(links, frames));
      FirstShown(m0, m1, m.mem, dir, end, f0, links);
      OneResident(m.mem, spaces, links, dir, Proc({RESV_PDE}, map[]));
    }
  }

  lemma OneResident(mem: seq<Frame>, spaces: Population, links: Links, dir: nat, v: Proc)
    requires dir in spaces && ShowsProc(mem, dir, |spaces[dir]|, v, links)
    ensures Resident(mem, spaces, links, map[0 := dir], map[0 := v])
  {
    hide ShowsProc;
  }

  lemma FirstShown(m0: seq<Frame>, m1: seq<Frame>, m2: seq<Frame>, dir: nat, end: nat, free: seq<nat>, links: Links)
    requires KernelMap(m0, free, dir, end, links) && dir < |m0| == |m1|
    requires forall a: nat, b: nat :: Private(a) && b < ENTRIES ==> Pte(m0, dir, a, b) == 0 && Pte(m2, dir, a, b) == Pte(m1, dir, a, b)
    requires SameView(m0, m1, dir) && m1[dir] == m0[dir][RESV_PDE := m1[dir][RESV_PDE]] && Present(m1[dir][RESV_PDE])
    requires m2 == m1[dir := m1[dir][RECURSIVE := Entry(dir, 3)]]
    ensures ShowsProc(m2, dir, 2, Proc({RESV_PDE}, map[]), links)
  {
    var v := Proc({RESV_PDE}, map[]);
    assert ShowsTables(m2, dir, v) && LinkedTo(m2, dir, links) by {
      hide SameView, KernelKeeps, KernelFrame;
      FirstEntries(m0, m1, m2, dir, end, free, links);
    }
    hide Pte, Seen, KernelMap, ShowsTables, LinkedTo;
  }

  lemma FirstEntries(m0: seq<Frame>, m1: seq<Frame>, m2: seq<Frame>, dir: nat, end: nat, free: seq<nat>, links: Links)
    requires KernelMap(m0, free, dir, end, links) && dir < |m0| == |m1|
    requires m1[dir] == m0[dir][RESV_PDE := m1[dir][RESV_PDE]] && Present(m1[dir][RESV_PDE])
    requires m2 == m1[dir := m1[dir][RECURSIVE := Entry(dir, 3)]]
    ensures ShowsTables(m2, dir, Proc({RESV_PDE}, map[])) && LinkedTo(m2, dir, links)
  {
    forall a | a in links.pdes ensures Linked(a) && Present(links.pdes[a]) {
    }
    hide KernelKeeps, KernelFrame, Tables;
  }

  /** From boot on: every run of the first process and its descendants goes as far as the usable frames, less the kernel's
      tables, have room for it. */
  method BootRun(frames: seq<Frame>, regions: seq<Region>, end: nat, ops: seq<ProcOp>)
    returns (ok: bool, n: nat, m: Memory, dirs: map<nat, nat>,
             ghost usable: set<nat>, ghost links: Links, ghost spaces: Population, ghost ws: seq<World>)
    requires Disjoint(regions) && forall i :: 0 <= i < |regions| ==> RegionOk(regions[i], |frames|)
    requires end / PAGE < |frames| && end < USER_STACK_PDE * ENTRIES * PAGE
    ensures forall f: nat :: f in usable <==> Usable(regions, f, end)
    ensures ok <==> |usable| >= 2 + TablesFor(end / PAGE + 1)
    ensures ok ==> n <= |ops| && |ws| == n + 1 && ws[0].procs == map[0 := Proc({RESV_PDE}, map[])]
    ensures ok ==> var room := |usable| - TablesFor(end / PAGE + 1);
                   Trace(ws, ops, n, room) && (n < |ops| ==> !Runs(ws[n], ops[n], room))
    ensures fresh(m) && (ok && n == |ops| ==> m.Valid() && Shows(m.mem, m.free, spaces, links, dirs, ws[n]))
  {
    hide Disjoint, RegionOk, Usable, Below, Shows, Image, Trace, Runs, Total;
    n, dirs, ws := 0, map[], [];
    var dir;
    ok, m, dir, usable, links, spaces := MemInit(frames, regions, end);
    if ok {
      ghost var w := World(map[0 := Proc({RESV_PDE}, map[])], Image(links, frames));
      FirstTotal(Proc({RESV_PDE}, map[]));
      n, dirs, spaces, ws := ProcRun(m, ops, map[0 := dir], links, spaces, w);
    }
  }

  lemma FirstTotal(v: Proc)
    ensures Total(map[0 := v]) == Cost(v)
  {
    TotalPick(map[0 := v], 0);
    assert map[0 := v] - {0} == map[];
  }
}
