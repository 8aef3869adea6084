/**
Address spaces side by side: every process has a directory with private frames of its
own. Forks, releases and stores keep the spaces apart, so that a private page only
ever shows what its own process stored in it since the fork.
*/
module Spaces {
  import opened Paging

  // ---- one space -----------------------------------------------------------------

  // A private entry that is not present is zero, which is what map tests for.
  ghost predicate ZeroOrPresent(mem: seq<Frame>, dir: nat) {
    forall pd: nat :: Private(pd) && !Present(WordOf(mem, dir, pd)) ==> WordOf(mem, dir, pd) == 0
  }

  ghost predicate Space(mem: seq<Frame>, dir: nat, owner: map<nat, Node>) {
    Owns(mem, dir, owner) && Solid(mem, dir) && ZeroOrPresent(mem, dir) && dir in owner && owner[dir] == Root
  }

  // A mapped private page lies in a frame of the space, its own.
  lemma PageFrame(mem: seq<Frame>, dir: nat, owner: map<nat, Node>, pd: nat, pt: nat)
    requires Space(mem, dir, owner) && Private(pd) && pt < ENTRIES && Pte(mem, dir, pd, pt) != 0
    ensures var f := FrameOf(Pte(mem, dir, pd, pt)); 0 < f < |mem| && f in owner && owner[f] == Page(pd, pt)
  {
    hide Pte;
    assert ValidNode(Page(pd, pt)) && FrameAt(mem, dir, Page(pd, pt)) != 0;
  }

  // A space stays as it is, page by page, while its directory and tables do.
  lemma KeepSpace(mem: seq<Frame>, mem': seq<Frame>, dir: nat, owner: map<nat, Node>)
    requires Space(mem, dir, owner) && |mem'| == |mem|
    requires forall f :: f in owner && !owner[f].Page? ==> f < |mem| && mem'[f] == mem[f]
    ensures Space(mem', dir, owner)
    ensures forall a: nat, b: nat :: Private(a) && b < ENTRIES ==> Pte(mem', dir, a, b) == Pte(mem, dir, a, b)
  {
    forall a: nat, b: nat | Private(a) && b < ENTRIES
      ensures Pte(mem', dir, a, b) == Pte(mem, dir, a, b) && FrameAt(mem', dir, Table(a)) == FrameAt(mem, dir, Table(a))
    {
      SamePte(mem, mem', dir, owner, a, b);
    }
    hide Pte;
    forall n | ValidNode(n) ensures FrameAt(mem', dir, n) == FrameAt(mem, dir, n) {
      if n.Table? {
        SamePte(mem, mem', dir, owner, n.pd, 0);
      }
    }
    SameOwns(mem, dir, owner, mem');
  }

  lemma SamePte(mem: seq<Frame>, mem': seq<Frame>, dir: nat, owner: map<nat, Node>, a: nat, b: nat)
    requires Space(mem, dir, owner) && |mem'| == |mem| && Private(a) && b < ENTRIES
    requires forall f :: f in owner && !owner[f].Page? ==> f < |mem| && mem'[f] == mem[f]
    ensures Pte(mem', dir, a, b) == Pte(mem, dir, a, b) && WordOf(mem', dir, a) == WordOf(mem, dir, a)
    ensures FrameAt(mem', dir, Table(a)) == FrameAt(mem, dir, Table(a))
  {
    assert mem'[dir] == mem[dir];
    TableElsewhere(mem, dir, owner, a);
  }

  /** A space whose frames are in use can be cloned: every frame the clone reads is in use. */
  lemma SpaceReadable(mem: seq<Frame>, dir: nat, owner: map<nat, Node>, free: seq<nat>)
    requires Space(mem, dir, owner) && forall f :: f in owner ==> f !in free
    ensures Readable(mem, dir, free)
  {
    assert dir < |mem|;
    forall pd: nat | Private(pd) && Present(mem[dir][pd])
      ensures FrameOf(mem[dir][pd]) < |mem| && FrameOf(mem[dir][pd]) !in free
    {
      TableElsewhere(mem, dir, owner, pd);
    }
    forall pd: nat, pt: nat | Private(pd) && pt < ENTRIES && Pte(mem, dir, pd, pt) != 0
      ensures FrameOf(Pte(mem, dir, pd, pt)) < |mem| && FrameOf(Pte(mem, dir, pd, pt)) !in free
    {
      PageFrame(mem, dir, owner, pd, pt);
    }
  }

  // ---- what a space costs -----------------------------------------------------------

  lemma {:induction false} PagesCount(mem: seq<Frame>, dir: nat, owner: map<nat, Node>, pd: nat, pt: nat)
    requires Space(mem, dir, owner) && Private(pd) && pt <= ENTRIES
    ensures |GoneAt(owner, pd, pt)| == |GoneAt(owner, pd, 0)| + PagesBelow(mem, dir, pd, pt)
  {
    hide Space, Pte, GoneAt;
    if pt > 0 {
      PagesCount(mem, dir, owner, pd, pt - 1);
      PageGone(mem, dir, owner, pd, pt - 1);
    }
  }

  lemma PageGone(mem: seq<Frame>, dir: nat, owner: map<nat, Node>, pd: nat, pt: nat)
    requires Space(mem, dir, owner) && Private(pd) && pt < ENTRIES
    ensures |GoneAt(owner, pd, pt + 1)| == |GoneAt(owner, pd, pt)| + if Pte(mem, dir, pd, pt) != 0 then 1 else 0
  {
    hide Pte;
    var n := Page(pd, pt);
    assert ValidNode(n);
    if Pte(mem, dir, pd, pt) != 0 {
      PageFrame(mem, dir, owner, pd, pt);
      NodeGone(mem, dir, owner, n, FrameOf(Pte(mem, dir, pd, pt)), pd, pt, pd, pt + 1);
    } else {
      NodeGone(mem, dir, owner, n, 0, pd, pt, pd, pt + 1);
    }
  }

  // Passing a node counts its frame, if it has one.
  lemma NodeGone(mem: seq<Frame>, dir: nat, owner: map<nat, Node>, n: Node, f: nat, pd: nat, pt: nat, pd': nat, pt': nat)
    requires Space(mem, dir, owner) && ValidNode(n) && Paging.Next(n, pd, pt, pd', pt') && f == FrameAt(mem, dir, n)
    ensures |GoneAt(owner, pd', pt')| == |GoneAt(owner, pd, pt)| + if f != 0 then 1 else 0
  {
    hide FrameAt, Solid, ZeroOrPresent;
    forall g | g in owner ensures Done(owner[g], pd', pt') <==> Done(owner[g], pd, pt) || g == f {
      NextDone(n, pd, pt, pd', pt', owner[g]);
    }
    if f != 0 {
      assert GoneAt(owner, pd', pt') == GoneAt(owner, pd, pt) + {f};
      assert f !in GoneAt(owner, pd, pt);
    } else {
      assert GoneAt(owner, pd', pt') == GoneAt(owner, pd, pt);
    }
  }

  lemma {:induction false} FramesCount(mem: seq<Frame>, dir: nat, owner: map<nat, Node>, pd: nat)
    requires Space(mem, dir, owner) && pd <= RECURSIVE
    ensures |GoneAt(owner, pd, 0)| == FramesBelow(mem, dir, pd)
  {
    hide Space, Pte, PagesBelow;
    if pd == 0 {
      assert GoneAt(owner, 0, 0) == {};
    } else {
      FramesCount(mem, dir, owner, pd - 1);
      hide GoneAt;
      EntryGone(mem, dir, owner, pd - 1);
    }
  }

  lemma EntryGone(mem: seq<Frame>, dir: nat, owner: map<nat, Node>, pd: nat)
    requires Space(mem, dir, owner) && pd < RECURSIVE
    ensures |GoneAt(owner, pd + 1, 0)| == |GoneAt(owner, pd, 0)|
                                          + if Private(pd) && Present(WordOf(mem, dir, pd)) then 1 + PagesBelow(mem, dir, pd, ENTRIES) else 0
  {
    hide PagesBelow;
    if Private(pd) {
      if Present(WordOf(mem, dir, pd)) {
        PagesCount(mem, dir, owner, pd, ENTRIES);
        hide GoneAt;
        NodeGone(mem, dir, owner, Table(pd), FrameAt(mem, dir, Table(pd)), pd, ENTRIES, pd + 1, 0);
      } else {
        forall g | g in owner ensures Done(owner[g], pd + 1, 0) <==> Done(owner[g], pd, 0) {
          assert FrameAt(mem, dir, owner[g]) == g;
        }
        assert GoneAt(owner, pd + 1, 0) == GoneAt(owner, pd, 0);
      }
    } else {
      hide FrameAt;
      assert GoneAt(owner, pd + 1, 0) == GoneAt(owner, pd, 0);
    }
  }

  /** What a clone of a space costs is what the space has: as many frames as are its own. */
  lemma OwnerCost(mem: seq<Frame>, dir: nat, owner: map<nat, Node>)
    requires Space(mem, dir, owner)
    ensures |owner| == CloneCost(mem, dir)
  {
    FramesCount(mem, dir, owner, RECURSIVE);
    hide FramesBelow;
    forall g | g in owner ensures Done(owner[g], RECURSIVE, 0) <==> g != dir {
      assert FrameAt(mem, dir, owner[g]) == g;
    }
    assert GoneAt(owner, RECURSIVE, 0) + {dir} == owner.Keys && dir !in GoneAt(owner, RECURSIVE, 0);
    assert |owner| == |owner.Keys|;
  }

  // ---- all spaces -------------------------------------------------------------------

  // The frames of every space, by its directory.
  type Population = map<nat, map<nat, Node>>

  ghost predicate Apart(spaces: Population) {
    forall d, e :: d in spaces && e in spaces && d != e ==> spaces[d].Keys !! spaces[e].Keys
  }

  ghost predicate InUse(spaces: Population, free: seq<nat>) {
    forall d, f :: d in spaces && f in spaces[d] ==> f !in free
  }

  ghost predicate Populated(mem: seq<Frame>, free: seq<nat>, spaces: Population) {
    && (forall d :: d in spaces ==> Space(mem, d, spaces[d]))
    && Apart(spaces) && InUse(spaces, free)
  }

  // Frames that are free or part of a space.
  ghost predicate Counted(free: seq<nat>, spaces: Population, f: nat) {
    f in free || exists d :: d in spaces && f in spaces[d]
  }

  /** Frame conservation: the frames free or part of a space stay the same, and no other frame changes. */
  ghost predicate Conserves(mem: seq<Frame>, free: seq<nat>, spaces: Population,
                            mem': seq<Frame>, free': seq<nat>, spaces': Population)
  {
    && |mem'| == |mem|
    && (forall f :: Counted(free', spaces', f) <==> Counted(free, spaces, f))
    && (forall f :: 0 <= f < |mem| && !Counted(free, spaces, f) ==> mem'[f] == mem[f])
  }

  // The entries of a directory for the ranges that all spaces share.
  ghost predicate SameLinks(mem: seq<Frame>, dir: nat, mem': seq<Frame>, dir': nat) {
    forall a: nat :: Linked(a) && a < RECURSIVE ==>
      && (Present(WordOf(mem', dir', a)) <==> Present(WordOf(mem, dir, a)))
      && (Present(WordOf(mem, dir, a)) ==> WordOf(mem', dir', a) == WordOf(mem, dir, a))
  }

  // The private page of a space, as its process sees it.
  function Seen(mem: seq<Frame>, dir: nat, pd: nat, pt: nat): Frame {
    var p := Pte(mem, dir, pd, pt);
    if p != 0 && FrameOf(p) < |mem| then mem[FrameOf(p)] else ZeroFrame()
  }

  // Every private page of the space is mapped and seen as before.
  ghost predicate SameView(mem: seq<Frame>, mem': seq<Frame>, dir: nat) {
    forall a: nat, b: nat :: Private(a) && b < ENTRIES ==>
                               Pte(mem', dir, a, b) == Pte(mem, dir, a, b) && Seen(mem', dir, a, b) == Seen(mem, dir, a, b)
  }

  ghost predicate SameDir(mem: seq<Frame>, mem': seq<Frame>, dir: nat) {
    forall a: nat :: a < ENTRIES ==> WordOf(mem', dir, a) == WordOf(mem, dir, a)
  }

  // All spaces but one keep their frames, their directories and what they see.
  ghost predicate OthersKept(mem: seq<Frame>, spaces: Population, mem': seq<Frame>, spaces': Population, dir: nat) {
    forall d :: d in spaces && d != dir ==>
                  d in spaces' && spaces'[d] == spaces[d] && SameView(mem, mem', d) && SameDir(mem, mem', d)
  }

  lemma KeepView(mem: seq<Frame>, mem': seq<Frame>, dir: nat, owner: map<nat, Node>)
    requires Space(mem, dir, owner) && |mem'| == |mem| && forall f :: f in owner ==> f < |mem| && mem'[f] == mem[f]
    ensures Space(mem', dir, owner) && SameView(mem, mem', dir) && SameDir(mem, mem', dir)
  {
    hide Pte, Space;
    SpaceRoot(mem, dir, owner);
    KeepSpace(mem, mem', dir, owner);
    forall a: nat, b: nat | Private(a) && b < ENTRIES ensures Seen(mem', dir, a, b) == Seen(mem, dir, a, b) {
      if Pte(mem, dir, a, b) != 0 {
        PageFrame(mem, dir, owner, a, b);
      }
    }
  }

  // ---- stores --------------------------------------------------------------------------

  // A process stores a word in one of its private pages.
  datatype Store = Store(dir: nat, pd: nat, pt: nat, i: nat, v: nat)

  predicate StoreOk(s: Store) {
    Private(s.pd) && s.pt < ENTRIES && s.i < ENTRIES
  }

  // A page that is not mapped faults, and nothing is stored.
  function Do(mem: seq<Frame>, s: Store): seq<Frame>
    requires StoreOk(s)
  {
    var p := Pte(mem, s.dir, s.pd, s.pt);
    if p != 0 && FrameOf(p) < |mem| then mem[FrameOf(p) := mem[FrameOf(p)][s.i := s.v]] else mem
  }

  predicate Hits(s: Store, dir: nat, pd: nat, pt: nat) {
    s.dir == dir && s.pd == pd && s.pt == pt
  }

  // The frame a store changes is a page of the storing space and belongs to no other.
  lemma StoreChanges(mem: seq<Frame>, free: seq<nat>, spaces: Population, s: Store)
    requires Populated(mem, free, spaces) && s.dir in spaces && StoreOk(s)
    ensures |Do(mem, s)| == |mem|
    ensures forall f :: f in free && f < |mem| ==> Do(mem, s)[f] == mem[f]
    ensures forall d, f :: d in spaces && f in spaces[d] && (d != s.dir || spaces[d][f] != Page(s.pd, s.pt)) && f < |mem| ==>
                             Do(mem, s)[f] == mem[f]
  {
    hide Pte, Space;
    if Pte(mem, s.dir, s.pd, s.pt) != 0 {
      PageFrame(mem, s.dir, spaces[s.dir], s.pd, s.pt);
    }
  }

  lemma OwnedBelow(mem: seq<Frame>, dir: nat, owner: map<nat, Node>)
    requires Space(mem, dir, owner)
    ensures forall f :: f in owner ==> f < |mem|
  {
    hide FrameAt;
  }

  /** A store keeps every space, changes the view of no other space, and in its own changes that page only. */
  lemma StoreKeeps(mem: seq<Frame>, free: seq<nat>, spaces: Population, s: Store)
    requires Populated(mem, free, spaces) && s.dir in spaces && StoreOk(s)
    ensures Populated(Do(mem, s), free, spaces)
    ensures forall d, a: nat, b: nat :: d in spaces && Private(a) && b < ENTRIES ==>
              && Pte(Do(mem, s), d, a, b) == Pte(mem, d, a, b)
              && (Pte(mem, d, a, b) != 0 ==>
                    Seen(Do(mem, s), d, a, b) == if Hits(s, d, a, b) then Seen(mem, d, a, b)[s.i := s.v] else Seen(mem, d, a, b))
  {
    hide Space, Pte, Do;
    StoreChanges(mem, free, spaces, s);
    var mem' := Do(mem, s);
    forall d | d in spaces
      ensures Space(mem', d, spaces[d])
      ensures forall a: nat, b: nat :: Private(a) && b < ENTRIES ==> Pte(mem', d, a, b) == Pte(mem, d, a, b)
    {
      OwnedBelow(mem, d, spaces[d]);
      KeepSpace(mem, mem', d, spaces[d]);
    }
    forall d, a: nat, b: nat | d in spaces && Private(a) && b < ENTRIES && Pte(mem, d, a, b) != 0
      ensures Seen(mem', d, a, b) == if Hits(s, d, a, b) then Seen(mem, d, a, b)[s.i := s.v] else Seen(mem, d, a, b)
    {
      PageFrame(mem, d, spaces[d], a, b);
      if Hits(s, d, a, b) {
        StoreHits(mem, s);
      }
    }
  }

  lemma StoreHits(mem: seq<Frame>, s: Store)
    requires StoreOk(s) && Pte(mem, s.dir, s.pd, s.pt) != 0 && FrameOf(Pte(mem, s.dir, s.pd, s.pt)) < |mem|
    ensures var f := FrameOf(Pte(mem, s.dir, s.pd, s.pt)); |Do(mem, s)| == |mem| && Do(mem, s)[f] == mem[f][s.i := s.v]
  {
    hide Pte;
  }

  function RunStores(mem: seq<Frame>, stores: seq<Store>): seq<Frame>
    requires forall i :: 0 <= i < |stores| ==> StoreOk(stores[i])
    decreases |stores|
  {
    if stores == [] then mem else RunStores(Do(mem, stores[0]), stores[1..])
  }

  // A page after those of the stores that were made to it.
  function Replay(page: Frame, stores: seq<Store>, dir: nat, pd: nat, pt: nat): Frame
    requires forall i :: 0 <= i < |stores| ==> StoreOk(stores[i])
    decreases |stores|
  {
    if stores == [] then page
    else
      var s := stores[0];
      assert StoreOk(s);
      Replay(if Hits(s, dir, pd, pt) then page[s.i := s.v] else page, stores[1..], dir, pd, pt)
  }

  /** Isolation over every run of stores by all processes, in any order: the mapping of every space stays, and each
      private page holds its old contents with exactly the stores of its own process to it replayed. */
  lemma {:induction false} RunIsolated(mem: seq<Frame>, free: seq<nat>, spaces: Population, stores: seq<Store>)
    requires Populated(mem, free, spaces)
    requires forall i :: 0 <= i < |stores| ==> stores[i].dir in spaces && StoreOk(stores[i])
    ensures Populated(RunStores(mem, stores), free, spaces)
    ensures forall d, a: nat, b: nat :: d in spaces && Private(a) && b < ENTRIES ==>
              && Pte(RunStores(mem, stores), d, a, b) == Pte(mem, d, a, b)
              && (Pte(mem, d, a, b) != 0 ==>
                    Seen(RunStores(mem, stores), d, a, b) == Replay(Seen(mem, d, a, b), stores, d, a, b))
    decreases |stores|
  {
    hide Populated, Pte, Seen, Do;
    if stores != [] {
      StoreKeeps(mem, free, spaces, stores[0]);
      RunIsolated(Do(mem, stores[0]), free, spaces, stores[1..]);
    }
  }

  // ---- fork and release -------------------------------------------------------------------

  // The private pages of dir are those of cur before the fork, with the same flags and contents.
  ghost predicate Copies(mem0: seq<Frame>, cur: nat, mem: seq<Frame>, dir: nat) {
    forall a: nat, b: nat :: Private(a) && b < ENTRIES ==>
      && (Pte(mem, dir, a, b) != 0 <==> Pte(mem0, cur, a, b) != 0)
      && FlagsOf(Pte(mem, dir, a, b)) == FlagsOf(Pte(mem0, cur, a, b))
      && Seen(mem, dir, a, b) == Seen(mem0, cur, a, b)
  }

  lemma CloneCopies(mem0: seq<Frame>, cur: nat, mem: seq<Frame>, dir: nat)
    requires ClonedRange(mem0, cur, mem, dir, RECURSIVE)
    ensures Copies(mem0, cur, mem, dir)
  {
    hide Pte;
    forall a: nat, b: nat | Private(a) && b < ENTRIES
      ensures Pte(mem, dir, a, b) != 0 <==> Pte(mem0, cur, a, b) != 0
      ensures FlagsOf(Pte(mem, dir, a, b)) == FlagsOf(Pte(mem0, cur, a, b))
      ensures Seen(mem, dir, a, b) == Seen(mem0, cur, a, b)
    {
      assert ClonedPte(mem0, cur, mem, dir, a, b);
    }
  }

  lemma CloneZero(mem0: seq<Frame>, cur: nat, mem: seq<Frame>, dir: nat)
    requires ClonedRange(mem0, cur, mem, dir, RECURSIVE)
    ensures ZeroOrPresent(mem, dir)
  {
    forall pd: nat | Private(pd) && !Present(WordOf(mem, dir, pd)) ensures WordOf(mem, dir, pd) == 0 {
      assert ClonedPde(mem0, cur, mem, dir, pd);
    }
  }

  lemma LinksCloned(mem0: seq<Frame>, cur: nat, mem: seq<Frame>, dir: nat)
    requires ClonedRange(mem0, cur, mem, dir, RECURSIVE)
    ensures SameLinks(mem0, cur, mem, dir)
  {
    forall a: nat | Linked(a) && a < RECURSIVE
      ensures Present(WordOf(mem, dir, a)) <==> Present(WordOf(mem0, cur, a))
      ensures Present(WordOf(mem0, cur, a)) ==> WordOf(mem, dir, a) == WordOf(mem0, cur, a)
    {
      assert ClonedPde(mem0, cur, mem, dir, a);
    }
  }

  lemma ForkConserves(mem0: seq<Frame>, free0: seq<nat>, spaces: Population, mem: seq<Frame>, free: seq<nat>,
                      dir: nat, owner: map<nat, Node>)
    requires Populated(mem0, free0, spaces) && Taken(mem0, free0, mem, free, owner) && dir !in spaces
    requires forall f :: f in free0 <==> f in free || f in owner
    ensures Conserves(mem0, free0, spaces, mem, free, spaces[dir := owner])
  {
    hide Space, Apart;
    var spaces' := spaces[dir := owner];
    forall f ensures Counted(free, spaces', f) <==> Counted(free0, spaces, f) {
      if Counted(free0, spaces, f) {
        if f in owner {
          assert f in spaces'[dir];
        } else if f !in free {
          var d :| d in spaces && f in spaces[d];
          assert f in spaces'[d];
        }
      }
      if Counted(free, spaces', f) && f !in free && f !in owner {
        var d :| d in spaces' && f in spaces'[d];
        assert f in spaces[d];
      }
    }
  }

  // The frames a clone took join the spaces: all of them were free.
  lemma Joins(mem0: seq<Frame>, free0: seq<nat>, spaces: Population, mem: seq<Frame>, free: seq<nat>,
              dir: nat, owner: map<nat, Node>)
    requires Populated(mem0, free0, spaces) && Chain(mem0, free0) && Taken(mem0, free0, mem, free, owner)
    requires Space(mem, dir, owner)
    ensures dir !in spaces && Populated(mem, free, spaces[dir := owner])
    ensures OthersKept(mem0, spaces, mem, spaces[dir := owner], dir)
  {
    hide Space, Chain, SameView, SameDir;
    assert Distinct(free0) by { ChainParts(mem0, free0); }
    TakenFresh(mem0, free0, mem, free, owner);
    forall d | d in spaces
      ensures Space(mem, d, spaces[d]) && SameView(mem0, mem, d) && SameDir(mem0, mem, d) && d in spaces[d]
    {
      SpaceRoot(mem0, d, spaces[d]);
      KeepView(mem0, mem, d, spaces[d]);
    }
    SpaceRoot(mem, dir, owner);
  }

  lemma SpaceRoot(mem: seq<Frame>, dir: nat, owner: map<nat, Node>)
    requires Space(mem, dir, owner)
    ensures dir in owner && owner[dir] == Root && forall f :: f in owner ==> f < |mem|
  {
    hide FrameAt;
  }

  /** fork: the new space shows the parent's private pages, shares its linked ones, and is apart from every space there
      was, none of which sees any change. */
  method Fork(m: Memory, cur: nat, ghost spaces: Population) returns (ok: bool, dir: nat, ghost spaces': Population)
    requires m.Valid() && Populated(m.mem, m.free, spaces) && cur in spaces
    modifies m
    ensures m.Valid() && |spaces[cur]| == CloneCost(old(m.mem), cur) && (ok <==> old(m.numPages) >= |spaces[cur]|)
    ensures ok ==>
              && dir !in spaces && spaces'.Keys == spaces.Keys + {dir} && Populated(m.mem, m.free, spaces')
              && OthersKept(old(m.mem), spaces, m.mem, spaces', dir)
              && Copies(old(m.mem), cur, m.mem, dir)
              && (forall pd: nat :: pd < RECURSIVE ==> ClonedPde(old(m.mem), cur, m.mem, dir, pd))
              && |spaces'[dir]| == |spaces[cur]| && m.numPages == old(m.numPages) - |spaces[cur]|
              && Conserves(old(m.mem), old(m.free), spaces, m.mem, m.free, spaces')
              && SameLinks(old(m.mem), cur, m.mem, dir)
  {
    hide Conserves, SameLinks, Chain, Readable, Owns, Solid, Pte, CloneCost, ClonedPde, ClonedPte, OthersKept, Copies, ZeroOrPresent, Apart;
    SpaceReadable(m.mem, cur, spaces[cur], m.free);
    OwnerCost(m.mem, cur, spaces[cur]);
    ghost var mem0, free0 := m.mem, m.free;
    ghost var owner;
    ok, dir, owner := m.CloneDirectory(cur);
    spaces' := spaces;
    if ok {
      ClonedSolid(mem0, cur, m.mem, dir);
      CloneZero(mem0, cur, m.mem, dir);
      CloneCopies(mem0, cur, m.mem, dir);
      assert Distinct(free0) by { ChainParts(mem0, free0); }
      TakenCount(mem0, free0, m.mem, m.free, owner);
      Joins(mem0, free0, spaces, m.mem, m.free, dir, owner);
      spaces' := spaces[dir := owner];
      ForkConserves(mem0, free0, spaces, m.mem, m.free, dir, owner);
      LinksCloned(mem0, cur, m.mem, dir);
    }
  }

  /** Releasing a space gives back exactly its frames; no other space sees any change. */
  method Release(m: Memory, dir: nat, ghost spaces: Population)
    requires m.Valid() && Populated(m.mem, m.free, spaces) && dir in spaces
    modifies m
    ensures m.Valid() && Populated(m.mem, m.free, spaces - {dir})
    ensures OthersKept(old(m.mem), spaces, m.mem, spaces - {dir}, dir)
    ensures m.numPages == old(m.numPages) + |spaces[dir]|
    ensures forall f :: f in m.free <==> f in old(m.free) || f in spaces[dir]
    ensures Conserves(old(m.mem), old(m.free), spaces, m.mem, m.free, spaces - {dir})
  {
    hide Chain, Owns, Solid, Pte, SameView, SameDir, ZeroOrPresent, Conserves;
    ghost var mem0 := m.mem;
    assert Space(mem0, dir, spaces[dir]);
    m.FreeDirectory(dir, spaces[dir]);
    hide Space;
    forall d | d in spaces && d != dir
      ensures Space(m.mem, d, spaces[d]) && SameView(mem0, m.mem, d) && SameDir(mem0, m.mem, d)
    {
      SpaceRoot(mem0, d, spaces[d]);
      KeepView(mem0, m.mem, d, spaces[d]);
    }
    ReleaseConserves(mem0, old(m.free), spaces, dir, m.mem, m.free);
  }

  lemma ReleaseConserves(mem: seq<Frame>, free: seq<nat>, spaces: Population, dir: nat, mem': seq<Frame>, free': seq<nat>)
    requires Populated(mem, free, spaces) && dir in spaces && |mem'| == |mem|
    requires forall f :: f in free' <==> f in free || f in spaces[dir]
    requires forall f :: 0 <= f < |mem| && f !in spaces[dir] ==> mem'[f] == mem[f]
    ensures Conserves(mem, free, spaces, mem', free', spaces - {dir})
  {
    hide Space, Apart;
    var spaces' := spaces - {dir};
    forall f ensures Counted(free', spaces', f) <==> Counted(free, spaces, f) {
      if Counted(free, spaces, f) && f !in free' {
        var d :| d in spaces && f in spaces[d];
        assert d in spaces' && f in spaces'[d];
      }
      if Counted(free', spaces', f) {
        if f in spaces[dir] {
          assert Counted(free, spaces, f);
        } else if f !in free {
          var d :| d in spaces' && f in spaces'[d];
          assert f in spaces[d];
        }
      }
    }
    forall f | 0 <= f < |mem| && !Counted(free, spaces, f) ensures mem'[f] == mem[f] {
      assert f !in spaces[dir];
    }
  }

  // The two levels of a private page, as they are read.
  lemma Walk(mem: seq<Frame>, free: seq<nat>, spaces: Population, dir: nat, pd: nat, pt: nat)
    requires Populated(mem, free, spaces) && dir in spaces && Private(pd) && pt < ENTRIES
    ensures 0 < dir < |mem| && dir !in free
    ensures if Present(mem[dir][pd]) then
              var t := FrameOf(mem[dir][pd]);
              && 0 < t < |mem| && t !in free && t != dir && t in spaces[dir] && spaces[dir][t] == Table(pd)
              && Pte(mem, dir, pd, pt) == (if Present(mem[t][pt]) then mem[t][pt] else 0)
            else mem[dir][pd] == 0 && Pte(mem, dir, pd, pt) == 0
    ensures Pte(mem, dir, pd, pt) != 0 ==>
              var f := FrameOf(Pte(mem, dir, pd, pt));
              0 < f < |mem| && f !in free && f in spaces[dir] && spaces[dir][f] == Page(pd, pt)
  {
    var owner := spaces[dir];
    assert Space(mem, dir, owner);
    TableElsewhere(mem, dir, owner, pd);
    if Pte(mem, dir, pd, pt) != 0 {
      PageFrame(mem, dir, owner, pd, pt);
    }
  }

  lemma StoreConserves(mem: seq<Frame>, free: seq<nat>, spaces: Population, s: Store)
    requires Populated(mem, free, spaces) && s.dir in spaces && StoreOk(s)
    ensures Conserves(mem, free, spaces, Do(mem, s), free, spaces)
    ensures forall d :: d in spaces ==> SameDir(mem, Do(mem, s), d)
  {
    hide Space, Pte;
    StoreChanges(mem, free, spaces, s);
    Walk(mem, free, spaces, s.dir, s.pd, s.pt);
    forall d | d in spaces ensures d < |mem| && Do(mem, s)[d] == mem[d] {
      SpaceRoot(mem, d, spaces[d]);
    }
  }

  /** A store through the two levels of the storing space. */
  method StoreWord(m: Memory, s: Store, ghost spaces: Population)
    requires m.Valid() && Populated(m.mem, m.free, spaces) && s.dir in spaces && StoreOk(s)
    modifies m`mem
    ensures m.Valid() && m.mem == Do(old(m.mem), s) && Populated(m.mem, m.free, spaces)
    ensures Conserves(old(m.mem), old(m.free), spaces, m.mem, m.free, spaces)
    ensures forall d :: d in spaces ==> SameDir(old(m.mem), m.mem, d)
  {
    hide Populated, Chain, Space, Pte, Conserves, SameDir;
    StoreConserves(m.mem, m.free, spaces, s);
    StoreKeeps(m.mem, m.free, spaces, s);
    Walk(m.mem, m.free, spaces, s.dir, s.pd, s.pt);
    var pde := m.mem[s.dir][s.pd];
    if pde % 2 == 1 {
      var pte := m.mem[pde / PAGE][s.pt];
      if pte % 2 == 1 {
        m.Put(pte / PAGE, s.i, s.v);
      }
    }
  }

  /** Fork isolation: after a fork and any run of stores by any processes, parent and child each see the parent's pages
      as they were at the fork with their own stores replayed, and nothing of each other's. */
  lemma ForkIsolation(mem0: seq<Frame>, mem: seq<Frame>, free: seq<nat>, spaces: Population, cur: nat, dir: nat,
                      stores: seq<Store>, a: nat, b: nat)
    requires Populated(mem, free, spaces) && cur in spaces && dir in spaces
    requires SameView(mem0, mem, cur) && Copies(mem0, cur, mem, dir)
    requires forall i :: 0 <= i < |stores| ==> stores[i].dir in spaces && StoreOk(stores[i])
    requires Private(a) && b < ENTRIES && Pte(mem0, cur, a, b) != 0
    ensures var page, after := Seen(mem0, cur, a, b), RunStores(mem, stores);
            && Seen(after, cur, a, b) == Replay(page, stores, cur, a, b)
            && Seen(after, dir, a, b) == Replay(page, stores, dir, a, b)
            && Pte(after, cur, a, b) == Pte(mem0, cur, a, b)
            && FlagsOf(Pte(after, dir, a, b)) == FlagsOf(Pte(mem0, cur, a, b))
  {
    hide Populated, Pte, Seen;
    RunIsolated(mem, free, spaces, stores);
  }
}
