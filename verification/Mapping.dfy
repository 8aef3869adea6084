/**
Mapping and unmapping of private pages: map with the table it may have to allocate,
and free_page. A space gets or loses one page, and nobody sees any other change.
*/
module Mapping {
  import opened Paging
  import opened Spaces

  // ---- one frame more or less --------------------------------------------------------

  // A frame joins a space, or leaves it.
  ghost function Joined(spaces: Population, dir: nat, f: nat, n: Node): Population
    requires dir in spaces
  {
    var owner: map<nat, Node> := spaces[dir];
    var owner': map<nat, Node> := owner[f := n];
    spaces[dir := owner']
  }

  ghost function Left(spaces: Population, dir: nat, f: nat): Population
    requires dir in spaces
  {
    var owner: map<nat, Node> := spaces[dir] - {f};
    spaces[dir := owner]
  }

  // Page (pd, pt) has a new entry and shows a new page; the other private pages are as before.
  ghost predicate OnePage(mem: seq<Frame>, mem': seq<Frame>, dir: nat, pd: nat, pt: nat, entry: nat, page: Frame) {
    forall a: nat, b: nat :: Private(a) && b < ENTRIES ==>
      && Pte(mem', dir, a, b) == (if a == pd && b == pt then entry else Pte(mem, dir, a, b))
      && Seen(mem', dir, a, b) == (if a == pd && b == pt then page else Seen(mem, dir, a, b))
  }

  // A frame that is neither free nor part of a space.
  ghost predicate Loose(mem: seq<Frame>, free: seq<nat>, spaces: Population, f: nat) {
    0 < f < |mem| && !Counted(free, spaces, f)
  }

  // Frames that no space has were changed or left the free list: nobody sees it.
  lemma Elsewhere(mem: seq<Frame>, free: seq<nat>, spaces: Population, mem': seq<Frame>, free': seq<nat>)
    requires Populated(mem, free, spaces) && |mem'| == |mem| && forall f :: f in free' ==> f in free
    requires forall d, f :: d in spaces && f in spaces[d] && f < |mem| ==> mem'[f] == mem[f]
    ensures Populated(mem', free', spaces)
    ensures forall d :: d in spaces ==> SameView(mem, mem', d) && SameDir(mem, mem', d)
  {
    hide Space, SameView, SameDir;
    forall d | d in spaces ensures Space(mem', d, spaces[d]) && SameView(mem, mem', d) && SameDir(mem, mem', d) {
      OwnedBelow(mem, d, spaces[d]);
      KeepView(mem, mem', d, spaces[d]);
    }
  }

  // One space has changed, in frames of its own or of nobody: the others see nothing of it.
  lemma OneChanged(mem: seq<Frame>, free: seq<nat>, spaces: Population, dir: nat,
                   mem': seq<Frame>, free': seq<nat>, owner: map<nat, Node>)
    requires Populated(mem, free, spaces) && dir in spaces && |mem'| == |mem| && Space(mem', dir, owner)
    requires forall d, f :: d in spaces && d != dir && f in spaces[d] && f < |mem| ==> mem'[f] == mem[f]
    requires forall d, f :: d in spaces && d != dir && f in spaces[d] ==> f !in owner && f !in free'
    requires forall f :: f in owner ==> f !in free'
    ensures Populated(mem', free', spaces[dir := owner])
    ensures OthersKept(mem, spaces, mem', spaces[dir := owner], dir)
  {
    hide Space, SameView, SameDir;
    forall d | d in spaces && d != dir ensures Space(mem', d, spaces[d]) && SameView(mem, mem', d) && SameDir(mem, mem', d) {
      OwnedBelow(mem, d, spaces[d]);
      KeepView(mem, mem', d, spaces[d]);
    }
  }

  /** A new, empty table: nobody sees a page more or less. */
  lemma TableAdded(mem: seq<Frame>, free: seq<nat>, spaces: Population, dir: nat, pd: nat, t: nat, flags: nat, mem': seq<Frame>)
    requires Populated(mem, free, spaces) && dir in spaces && Loose(mem, free, spaces, t)
    requires Private(pd) && dir < |mem| && mem[dir][pd] == 0 && flags < PAGE && flags % 2 == 1
    requires mem' == mem[t := ZeroFrame()][dir := mem[dir][pd := Entry(t, flags)]]
    ensures Populated(mem', free, Joined(spaces, dir, t, Table(pd)))
    ensures SameView(mem, mem', dir) && OthersKept(mem, spaces, mem', Joined(spaces, dir, t, Table(pd)), dir)
    ensures t != dir && mem'[dir] == mem[dir][pd := Entry(t, flags)] && mem'[t] == ZeroFrame()
  {
    hide Space, SameView, SameDir, Owns, Pte;
    TableSpace(mem, dir, spaces[dir], pd, t, flags, mem');
    var owner': map<nat, Node> := spaces[dir][t := Table(pd)];
    SpaceRoot(mem, dir, spaces[dir]);
    OneChanged(mem, free, spaces, dir, mem', free, owner');
  }

  lemma TableSpace(mem: seq<Frame>, dir: nat, owner: map<nat, Node>, pd: nat, t: nat, flags: nat, mem': seq<Frame>)
    requires Space(mem, dir, owner) && t !in owner && 0 < t < |mem|
    requires Private(pd) && dir < |mem| && mem[dir][pd] == 0 && flags < PAGE && flags % 2 == 1
    requires mem' == mem[t := ZeroFrame()][dir := mem[dir][pd := Entry(t, flags)]]
    ensures Space(mem', dir, owner[t := Table(pd)]) && SameView(mem, mem', dir)
  {
    TakeTable(mem, dir, owner, t, pd, flags, mem');
    hide Owns;
    forall a: nat, b: nat | Private(a) && b < ENTRIES
      ensures Pte(mem', dir, a, b) == Pte(mem, dir, a, b) && Seen(mem', dir, a, b) == Seen(mem, dir, a, b)
    {
      if Pte(mem, dir, a, b) != 0 {
        PageFrame(mem, dir, owner, a, b);
      }
    }
  }

  /** A page mapped to a frame of nobody's: its space gets that page, and nobody sees any other change. */
  lemma PageAdded(mem: seq<Frame>, free: seq<nat>, spaces: Population, dir: nat, pd: nat, pt: nat, t: nat, f: nat,
                  flags: nat, mem': seq<Frame>)
    requires Populated(mem, free, spaces) && dir in spaces && Loose(mem, free, spaces, f)
    requires Private(pd) && pt < ENTRIES && dir < |mem| && Present(mem[dir][pd]) && t == FrameOf(mem[dir][pd])
    requires Pte(mem, dir, pd, pt) == 0 && flags < PAGE && flags % 2 == 1
    requires t < |mem| && mem' == mem[t := mem[t][pt := Entry(f, flags)]]
    ensures Populated(mem', free, Joined(spaces, dir, f, Page(pd, pt)))
    ensures OthersKept(mem, spaces, mem', Joined(spaces, dir, f, Page(pd, pt)), dir)
    ensures OnePage(mem, mem', dir, pd, pt, Entry(f, flags), mem[f])
    ensures t != dir && mem'[dir] == mem[dir]
  {
    hide Space, SameView, SameDir, Owns, Pte;
    Walk(mem, free, spaces, dir, pd, pt);
    PageSpace(mem, dir, spaces[dir], pd, pt, t, f, flags, mem');
    var owner': map<nat, Node> := spaces[dir][f := Page(pd, pt)];
    OneChanged(mem, free, spaces, dir, mem', free, owner');
  }

  lemma PageSpace(mem: seq<Frame>, dir: nat, owner: map<nat, Node>, pd: nat, pt: nat, t: nat, f: nat, flags: nat, mem': seq<Frame>)
    requires Space(mem, dir, owner) && f !in owner && 0 < f < |mem| && flags < PAGE && flags % 2 == 1
    requires Private(pd) && pt < ENTRIES && t < |mem| && t != dir && t in owner && owner[t] == Table(pd)
    requires dir < |mem| && Present(mem[dir][pd]) && t == FrameOf(mem[dir][pd]) && Pte(mem, dir, pd, pt) == 0
    requires mem' == mem[t := mem[t][pt := Entry(f, flags)]]
    ensures Space(mem', dir, owner[f := Page(pd, pt)]) && OnePage(mem, mem', dir, pd, pt, Entry(f, flags), mem[f])
  {
    assert 0 < t;
    assert mem[f := mem[f]] == mem;
    TakePage(mem, dir, owner, t, f, pd, pt, flags, mem[f], mem');
    hide Owns;
    forall a: nat, b: nat | Private(a) && b < ENTRIES
      ensures Seen(mem', dir, a, b) == if a == pd && b == pt then mem[f] else Seen(mem, dir, a, b)
    {
      if Pte(mem, dir, a, b) != 0 {
        PageFrame(mem, dir, owner, a, b);
      }
    }
  }

  /** A page unmapped and its frame given back: its space loses that page, and nobody sees any other change. */
  lemma PageDropped(mem: seq<Frame>, free: seq<nat>, spaces: Population, dir: nat, pd: nat, pt: nat, t: nat, f: nat,
                    page: Frame, mem': seq<Frame>)
    requires Populated(mem, free, spaces) && dir in spaces && Private(pd) && pt < ENTRIES
    requires dir < |mem| && Present(mem[dir][pd]) && t == FrameOf(mem[dir][pd])
    requires Pte(mem, dir, pd, pt) != 0 && f == FrameOf(Pte(mem, dir, pd, pt))
    requires f < |mem| && t < |mem| && mem' == mem[f := page][t := mem[t][pt := 0]]
    ensures Populated(mem', [f] + free, Left(spaces, dir, f))
    ensures OthersKept(mem, spaces, mem', Left(spaces, dir, f), dir)
    ensures OnePage(mem, mem', dir, pd, pt, 0, ZeroFrame())
    ensures t != dir && f != dir && mem'[dir] == mem[dir]
  {
    hide Space, SameView, SameDir, Owns, Pte;
    Walk(mem, free, spaces, dir, pd, pt);
    DropSpace(mem, dir, spaces[dir], pd, pt, t, f, page, mem');
    var owner': map<nat, Node> := spaces[dir] - {f};
    OneChanged(mem, free, spaces, dir, mem', [f] + free, owner');
  }

  lemma DropSpace(mem: seq<Frame>, dir: nat, owner: map<nat, Node>, pd: nat, pt: nat, t: nat, f: nat, page: Frame, mem': seq<Frame>)
    requires Space(mem, dir, owner) && Private(pd) && pt < ENTRIES && t < |mem| && f < |mem|
    requires dir < |mem| && Present(mem[dir][pd]) && t == FrameOf(mem[dir][pd])
    requires Pte(mem, dir, pd, pt) != 0 && f == FrameOf(Pte(mem, dir, pd, pt))
    requires mem' == mem[f := page][t := mem[t][pt := 0]]
    ensures Space(mem', dir, owner - {f}) && t != dir && f != dir && f != t && f in owner && t in owner
    ensures OnePage(mem, mem', dir, pd, pt, 0, ZeroFrame())
  {
    PageFrame(mem, dir, owner, pd, pt);
    TableElsewhere(mem, dir, owner, pd);
    DropPage(mem, dir, owner, t, f, pd, pt, page, mem');
    hide Owns;
    forall a: nat, b: nat | Private(a) && b < ENTRIES
      ensures Seen(mem', dir, a, b) == if a == pd && b == pt then ZeroFrame() else Seen(mem, dir, a, b)
    {
      if Pte(mem, dir, a, b) != 0 {
        PageFrame(mem, dir, owner, a, b);
      }
    }
  }

  lemma OnePageAfter(mem0: seq<Frame>, mem: seq<Frame>, mem': seq<Frame>, dir: nat, pd: nat, pt: nat, entry: nat, page: Frame)
    requires SameView(mem0, mem, dir) && OnePage(mem, mem', dir, pd, pt, entry, page)
    ensures OnePage(mem0, mem', dir, pd, pt, entry, page)
  {
    hide Pte, Seen;
  }

  lemma ViewTrans(mem0: seq<Frame>, mem1: seq<Frame>, mem2: seq<Frame>, dir: nat)
    requires SameView(mem0, mem1, dir) && SameView(mem1, mem2, dir)
    ensures SameView(mem0, mem2, dir)
  {
    hide Pte, Seen;
  }

  lemma OthersTrans(mem0: seq<Frame>, s0: Population, mem1: seq<Frame>, s1: Population, mem2: seq<Frame>, s2: Population, dir: nat)
    requires OthersKept(mem0, s0, mem1, s1, dir) && OthersKept(mem1, s1, mem2, s2, dir)
    ensures OthersKept(mem0, s0, mem2, s2, dir)
  {
    hide SameView, SameDir;
    forall d | d in s0 && d != dir ensures SameView(mem0, mem2, d) && SameDir(mem0, mem2, d) {
      ViewTrans(mem0, mem1, mem2, d);
      DirTrans(mem0, mem1, mem2, d);
    }
  }

  lemma DirTrans(mem0: seq<Frame>, mem1: seq<Frame>, mem2: seq<Frame>, dir: nat)
    requires SameDir(mem0, mem1, dir) && SameDir(mem1, mem2, dir)
    ensures SameDir(mem0, mem2, dir)
  {
    hide WordOf;
  }

  // ---- the calls -------------------------------------------------------------------------

  lemma CountedJoin(free: seq<nat>, spaces: Population, dir: nat, f: nat, n: Node, g: nat)
    requires dir in spaces
    ensures Counted(free, Joined(spaces, dir, f, n), g) <==> Counted(free, spaces, g) || g == f
  {
    var spaces' := Joined(spaces, dir, f, n);
    if Counted(free, spaces, g) && g !in free {
      var d :| d in spaces && g in spaces[d];
      assert d in spaces' && g in spaces'[d];
    }
    assert f in spaces'[dir];
    if Counted(free, spaces', g) && g !in free && g != f {
      var d :| d in spaces' && g in spaces'[d];
      assert g in spaces[d];
    }
  }

  // A frame taken from the free list, not yet part of a space.
  method TakeFrame(m: Memory, ghost spaces: Population, ghost dir: nat) returns (ok: bool, f: nat)
    requires m.Valid() && Populated(m.mem, m.free, spaces) && dir in spaces
    modifies m
    ensures m.Valid() && |m.mem| == |old(m.mem)| && (ok <==> old(m.numPages) > 0)
    ensures ok ==>
              && Populated(m.mem, m.free, spaces) && Loose(m.mem, m.free, spaces, f) && m.numPages == old(m.numPages) - 1
              && OthersKept(old(m.mem), spaces, m.mem, spaces, dir)
              && SameView(old(m.mem), m.mem, dir) && dir < |m.mem| && m.mem[dir] == old(m.mem)[dir]
              && f in old(m.free) && m.mem == old(m.mem)[f := old(m.mem)[f][0 := 0]]
              && (forall g :: g in old(m.free) <==> g in m.free || g == f)
  {
    hide Chain, SameView, SameDir, Space;
    ok, f := m.FrameAlloc();
    if ok {
      assert old(m.free) == [f] + m.free && f in old(m.free);
      Elsewhere(old(m.mem), old(m.free), spaces, m.mem, m.free);
      SpaceRoot(m.mem, dir, spaces[dir]);
    }
  }

  // Frame f has left the free list and joined space dir, in which nothing but its own frames has changed.
  lemma JoinConserves(mem: seq<Frame>, free: seq<nat>, spaces: Population, dir: nat, f: nat, n: Node,
                      mem': seq<Frame>, free': seq<nat>)
    requires dir in spaces && |mem'| == |mem| && f in free && f !in spaces[dir]
    requires forall g :: g in free <==> g in free' || g == f
    requires forall g :: 0 <= g < |mem| && g != f && g !in spaces[dir] ==> mem'[g] == mem[g]
    ensures Conserves(mem, free, spaces, mem', free', Joined(spaces, dir, f, n))
    ensures |Joined(spaces, dir, f, n)[dir]| == |spaces[dir]| + 1
  {
    var spaces' := Joined(spaces, dir, f, n);
    forall g ensures Counted(free', spaces', g) <==> Counted(free, spaces, g) {
      CountedJoin(free', spaces, dir, f, n, g);
    }
    forall g | 0 <= g < |mem| && !Counted(free, spaces, g) ensures mem'[g] == mem[g] {
      assert g !in spaces[dir];
    }
    JoinSize(spaces[dir], f, n);
  }

  lemma JoinSize(owner: map<nat, Node>, f: nat, n: Node)
    requires f !in owner
    ensures |owner[f := n]| == |owner| + 1
  {
    assert owner[f := n].Keys == owner.Keys + {f};
    assert |owner[f := n]| == |owner[f := n].Keys| && |owner| == |owner.Keys|;
  }

  ghost function TablesNeeded(mem: seq<Frame>, dir: nat, pd: nat): nat {
    if Present(WordOf(mem, dir, pd)) then 0 else 1
  }

  // The table for the page: it is there, or is taken and zeroed.
  method EnsureTable(m: Memory, dir: nat, pd: nat, flags: nat, ghost spaces: Population) returns (ok: bool, ghost spaces': Population)
    requires m.Valid() && Populated(m.mem, m.free, spaces) && dir in spaces && Private(pd) && flags < PAGE && flags % 2 == 1
    modifies m
    ensures m.Valid() && dir < |old(m.mem)| == |m.mem|
    ensures ok <==> old(m.numPages) >= TablesNeeded(old(m.mem), dir, pd)
    ensures ok ==>
              && Populated(m.mem, m.free, spaces') && m.numPages == old(m.numPages) - TablesNeeded(old(m.mem), dir, pd)
              && OthersKept(old(m.mem), spaces, m.mem, spaces', dir) && SameView(old(m.mem), m.mem, dir)
              && m.mem[dir] == old(m.mem)[dir][pd := m.mem[dir][pd]] && Present(m.mem[dir][pd])
              && Conserves(old(m.mem), old(m.free), spaces, m.mem, m.free, spaces')
              && spaces'.Keys == spaces.Keys && |spaces'[dir]| == |spaces[dir]| + TablesNeeded(old(m.mem), dir, pd)
  {
    hide Chain, SameView, Space, Pte, OthersKept, Populated, Conserves;
    Walk(m.mem, m.free, spaces, dir, pd, 0);
    ok, spaces' := true, spaces;
    NoChange(m.mem, m.free, spaces, dir);
    ghost var m0, f0 := m.mem, m.free;
    if m.mem[dir][pd] == 0 {
      var t;
      ok, t := TakeFrame(m, spaces, dir);
      if ok {
        ghost var m1 := m.mem;
        FrameApart(m1, m.free, spaces, dir, t);
        m.Put(dir, pd, Entry(t, flags));
        m.Fill(t, ZeroFrame());
        TableAdded(m1, m.free, spaces, dir, pd, t, flags, m.mem);
        spaces' := Joined(spaces, dir, t, Table(pd));
        JoinConserves(m0, f0, spaces, dir, t, Table(pd), m.mem, m.free);
        ViewTrans(m0, m1, m.mem, dir);
        OthersTrans(m0, spaces, m1, spaces, m.mem, spaces', dir);
      }
    }
  }

  lemma NoChange(mem: seq<Frame>, free: seq<nat>, spaces: Population, dir: nat)
    ensures Conserves(mem, free, spaces, mem, free, spaces) && OthersKept(mem, spaces, mem, spaces, dir) && SameView(mem, mem, dir)
  {
    hide Pte, Seen;
  }

  lemma FrameApart(mem: seq<Frame>, free: seq<nat>, spaces: Population, dir: nat, f: nat)
    requires Populated(mem, free, spaces) && dir in spaces && Loose(mem, free, spaces, f)
    ensures dir != f && f !in spaces[dir] && dir in spaces[dir] && dir < |mem| && dir !in free
  {
    SpaceRoot(mem, dir, spaces[dir]);
  }

  /** A frame mapped at a private page, as exec and sbrk do it: frame_alloc, then map. It takes one frame, or two when the
      table is not there yet, and fails exactly when there are fewer. Its process sees the page with whatever the frame
      held, its first word zeroed, and nobody sees any other change. */
  method MapPage(m: Memory, dir: nat, pd: nat, pt: nat, flags: nat, ghost spaces: Population)
    returns (ok: bool, f: nat, ghost spaces': Population)
    requires m.Valid() && Populated(m.mem, m.free, spaces) && dir in spaces && Private(pd) && pt < ENTRIES
    requires flags < PAGE && flags % 2 == 1 && Pte(m.mem, dir, pd, pt) == 0
    modifies m
    ensures m.Valid() && dir < |old(m.mem)| == |m.mem|
    ensures ok <==> old(m.numPages) >= 1 + TablesNeeded(old(m.mem), dir, pd)
    ensures ok ==>
              && m.numPages == old(m.numPages) - 1 - TablesNeeded(old(m.mem), dir, pd)
              && Populated(m.mem, m.free, spaces') && OthersKept(old(m.mem), spaces, m.mem, spaces', dir)
              && Conserves(old(m.mem), old(m.free), spaces, m.mem, m.free, spaces')
              && spaces'.Keys == spaces.Keys && |spaces'[dir]| == |spaces[dir]| + 1 + TablesNeeded(old(m.mem), dir, pd)
              && f < |m.mem| && f in old(m.free)
              && OnePage(old(m.mem), m.mem, dir, pd, pt, Entry(f, flags), old(m.mem)[f][0 := 0])
              && m.mem[dir] == old(m.mem)[dir][pd := m.mem[dir][pd]] && Present(m.mem[dir][pd])
  {
    hide Chain, SameView, Space, Pte, Populated, OthersKept, Conserves, OnePage, Loose;
    ghost var m0, f0 := m.mem, m.free;
    assert dir < |m0| by { Walk(m0, f0, spaces, dir, pd, pt); }
    spaces' := spaces;
    ok, f := TakeFrame(m, spaces, dir);
    if !ok {
      return;
    }
    ghost var m1, f1 := m.mem, m.free;
    ghost var s1;
    ok, s1 := EnsureTable(m, dir, pd, flags, spaces);
    if !ok {
      return;
    }
    ghost var m2 := m.mem;
    ViewTrans(m0, m1, m2, dir);
    assert Pte(m2, dir, pd, pt) == 0 by { PteSame(m0, m2, dir, pd, pt); }
    Walk(m2, m.free, s1, dir, pd, pt);
    StillLoose(m1, f1, spaces, m2, m.free, s1, f);
    m.Put(m.mem[dir][pd] / PAGE, pt, Entry(f, flags));
    PageAdded(m2, m.free, s1, dir, pd, pt, FrameOf(m2[dir][pd]), f, flags, m.mem);
    spaces' := Joined(s1, dir, f, Page(pd, pt));
    FrameApart(m2, m.free, s1, dir, f);
    OnePageAfter(m0, m2, m.mem, dir, pd, pt, Entry(f, flags), m2[f]);
    OthersTrans(m0, spaces, m1, spaces, m2, s1, dir);
    OthersTrans(m0, spaces, m2, s1, m.mem, spaces', dir);
    JoinSize(s1[dir], f, Page(pd, pt));
    MapConserves(m0, f0, spaces, m1, f1, m2, m.free, s1, dir, f, Page(pd, pt), FrameOf(m2[dir][pd]), m.mem);
  }

  lemma PteSame(mem: seq<Frame>, mem': seq<Frame>, dir: nat, pd: nat, pt: nat)
    requires SameView(mem, mem', dir) && Private(pd) && pt < ENTRIES
    ensures Pte(mem', dir, pd, pt) == Pte(mem, dir, pd, pt)
  {
  }

  lemma StillLoose(mem: seq<Frame>, free: seq<nat>, spaces: Population, mem': seq<Frame>, free': seq<nat>, spaces': Population, f: nat)
    requires Loose(mem, free, spaces, f) && Conserves(mem, free, spaces, mem', free', spaces')
    ensures Loose(mem', free', spaces', f) && 0 < f < |mem'| == |mem| && mem'[f] == mem[f]
  {
    hide Counted;
  }

  // Frame f is taken, a table may be, and then f joins.
  lemma MapConserves(m0: seq<Frame>, f0: seq<nat>, spaces: Population, m1: seq<Frame>, f1: seq<nat>,
                     m2: seq<Frame>, f2: seq<nat>, s1: Population, dir: nat, f: nat, n: Node, t: nat, m3: seq<Frame>)
    requires |m1| == |m0| && forall g :: 0 <= g < |m0| && g != f ==> m1[g] == m0[g]
    requires forall g :: g in f0 <==> g in f1 || g == f
    requires Conserves(m1, f1, spaces, m2, f2, s1) && dir in s1 && t in s1[dir]
    requires |m3| == |m2| && forall g :: 0 <= g < |m2| && g != t ==> m3[g] == m2[g]
    ensures Conserves(m0, f0, spaces, m3, f2, Joined(s1, dir, f, n))
  {
    assert Counted(f2, s1, t);
    forall g ensures Counted(f0, spaces, g) <==> Counted(f1, spaces, g) || g == f {
    }
    forall g ensures Counted(f2, Joined(s1, dir, f, n), g) <==> Counted(f2, s1, g) || g == f {
      CountedJoin(f2, s1, dir, f, n, g);
    }
    hide Counted;
  }

  /** free_page at a mapped private page: the page is wiped and unmapped and its frame is the next to be allocated. The table
      stays, and nobody sees any other change. */
  method FreePage(m: Memory, dir: nat, pd: nat, pt: nat, ghost spaces: Population) returns (ghost spaces': Population)
    requires m.Valid() && Populated(m.mem, m.free, spaces) && dir in spaces && Private(pd) && pt < ENTRIES
    requires Pte(m.mem, dir, pd, pt) != 0
    modifies m
    ensures m.Valid() && m.numPages == old(m.numPages) + 1
    ensures Populated(m.mem, m.free, spaces') && OthersKept(old(m.mem), spaces, m.mem, spaces', dir)
    ensures Conserves(old(m.mem), old(m.free), spaces, m.mem, m.free, spaces')
    ensures spaces'.Keys == spaces.Keys && |spaces'[dir]| == |spaces[dir]| - 1
    ensures OnePage(old(m.mem), m.mem, dir, pd, pt, 0, ZeroFrame()) && SameDir(old(m.mem), m.mem, dir)
    ensures m.free == [FrameOf(Pte(old(m.mem), dir, pd, pt))] + old(m.free)
  {
    hide Chain, SameView, Space, Pte, Populated, OthersKept, Conserves, OnePage;
    ghost var m0, f0 := m.mem, m.free;
    Walk(m0, f0, spaces, dir, pd, pt);
    var t := m.mem[dir][pd] / PAGE;
    var f := m.mem[t][pt] / PAGE;
    m.Fill(f, ZeroFrame());
    m.Put(t, pt, 0);
    m.FrameFree(f);
    PageDropped(m0, f0, spaces, dir, pd, pt, t, f, ZeroFrame()[0 := HeadOf(f0)], m.mem);
    spaces' := Left(spaces, dir, f);
    LeftConserves(m0, f0, spaces, dir, f, m.mem, m.free);
  }

  lemma LeftConserves(mem: seq<Frame>, free: seq<nat>, spaces: Population, dir: nat, f: nat, mem': seq<Frame>, free': seq<nat>)
    requires dir in spaces && |mem'| == |mem| && f in spaces[dir] && free' == [f] + free
    requires forall g :: 0 <= g < |mem| && g !in spaces[dir] ==> mem'[g] == mem[g]
    ensures Conserves(mem, free, spaces, mem', free', Left(spaces, dir, f))
    ensures |Left(spaces, dir, f)[dir]| == |spaces[dir]| - 1
  {
    var spaces' := Left(spaces, dir, f);
    var owner, owner': map<nat, Node> := spaces[dir], spaces'[dir];
    assert owner'[f := owner[f]] == owner;
    assert spaces == Joined(spaces', dir, f, owner[f]);
    forall g ensures Counted(free', spaces', g) <==> Counted(free, spaces, g) {
      CountedJoin(free, spaces', dir, f, spaces[dir][f], g);
    }
    forall g | 0 <= g < |mem| && !Counted(free, spaces, g) ensures mem'[g] == mem[g] {
      assert g !in spaces[dir];
    }
    JoinSize(spaces'[dir], f, spaces[dir][f]);
  }
}
