/**
Runs of forks, releases, mappings, unmappings and stores: the address spaces of all
processes behave as tables of pages, one for each process and one that all share, and
the room for them is a plain sum.
*/
module Processes {
  import opened Paging
  import opened Spaces
  import opened Mapping
  import opened Sums

  // ---- processes as tables of pages -----------------------------------------------------

  datatype Leaf = Leaf(flags: nat, data: Frame)

  // The private tables of a process and its private pages, by directory and table index.
  datatype Proc = Proc(tables: set<nat>, pages: map<(nat, nat), Leaf>)

  // All processes, and the pages of the kernel that every process sees.
  datatype World = World(procs: map<nat, Proc>, shared: map<(nat, nat), Frame>)

  datatype ProcOp =
    | ForkOp(p: nat, child: nat)
    | ReleaseOp(p: nat)
    | StoreOp(p: nat, pd: nat, pt: nat, i: nat, v: nat)
    | MapOp(p: nat, pd: nat, pt: nat, flags: nat)
    | FreeOp(p: nat, pd: nat, pt: nat)

  // What the callers see to: map is asked for pages that are not mapped, and free_page panics at those.
  predicate Allowed(w: World, op: ProcOp) {
    op.p in w.procs && match op
                       case ForkOp(_, c) => c !in w.procs
                       case ReleaseOp(_) => true
                       case StoreOp(_, pd, pt, i, _) => pd < RECURSIVE && pt < ENTRIES && i < ENTRIES
                       case MapOp(p, pd, pt, flags) =>
                         Private(pd) && pt < ENTRIES && flags < PAGE && flags % 2 == 1 && (pd, pt) !in w.procs[p].pages
                       case FreeOp(p, pd, pt) => Private(pd) && pt < ENTRIES && (pd, pt) in w.procs[p].pages
  }

  function Updated(w: World, p: nat, v: Proc): World {
    w.(procs := w.procs[p := v])
  }

  // A store to a page that is not mapped faults, and nothing is stored.
  function Stored(v: Proc, k: (nat, nat), i: nat, x: nat): Proc
    requires i < ENTRIES
  {
    if k in v.pages then v.(pages := v.pages[k := v.pages[k].(data := v.pages[k].data[i := x])]) else v
  }

  function StoredShared(shared: map<(nat, nat), Frame>, k: (nat, nat), i: nat, x: nat): map<(nat, nat), Frame>
    requires i < ENTRIES
  {
    if k in shared then shared[k := shared[k][i := x]] else shared
  }

  function WithPage(v: Proc, pd: nat, pt: nat, leaf: Leaf): Proc {
    Proc(v.tables + {pd}, v.pages[(pd, pt) := leaf])
  }

  function WithoutPage(v: Proc, pd: nat, pt: nat): Proc {
    v.(pages := v.pages - {(pd, pt)})
  }

  // One operation. The contents of a page just mapped are anything with a zero in front.
  ghost predicate Next(w: World, op: ProcOp, w': World)
    requires Allowed(w, op)
  {
    match op
    case ForkOp(p, c) => w' == Updated(w, c, w.procs[p])
    case ReleaseOp(p) => w' == w.(procs := w.procs - {p})
    case StoreOp(p, pd, pt, i, v) =>
      if Private(pd) then w' == Updated(w, p, Stored(w.procs[p], (pd, pt), i, v))
      else w' == w.(shared := StoredShared(w.shared, (pd, pt), i, v))
    case MapOp(p, pd, pt, flags) =>
      exists data: Frame :: data[0] == 0 && w' == Updated(w, p, WithPage(w.procs[p], pd, pt, Leaf(flags, data)))
    case FreeOp(p, pd, pt) => w' == Updated(w, p, WithoutPage(w.procs[p], pd, pt))
  }

  // ---- room --------------------------------------------------------------------------------

  // The directory, the private tables and the private pages.
  function Cost(v: Proc): nat {
    1 + |v.tables| + |v.pages|
  }

  ghost function Total(procs: map<nat, Proc>): nat {
    Sum(map p | p in procs :: Cost(procs[p]))
  }

  // The frames an operation asks for.
  function Need(w: World, op: ProcOp): nat
    requires Allowed(w, op)
  {
    match op
    case ForkOp(p, _) => Cost(w.procs[p])
    case MapOp(p, pd, _, _) => if pd in w.procs[p].tables then 1 else 2
    case _ => 0
  }

  lemma TotalPick(procs: map<nat, Proc>, p: nat)
    requires p in procs
    ensures Total(procs) == Cost(procs[p]) + Total(procs - {p})
  {
    hide Cost;
    var costs := map q | q in procs :: Cost(procs[q]);
    SumPick(costs, p);
    hide Sum;
    assert costs - {p} == map q | q in procs - {p} :: Cost((procs - {p})[q]);
  }

  lemma TotalUpdate(procs: map<nat, Proc>, p: nat, v: Proc)
    ensures Total(procs[p := v]) == Total(procs - {p}) + Cost(v)
  {
    hide Total, Cost;
    TotalPick(procs[p := v], p);
    assert procs[p := v] - {p} == procs - {p};
  }

  // ---- memory --------------------------------------------------------------------------------

  ghost predicate ShowsPage(mem: seq<Frame>, dir: nat, v: Proc, a: nat, b: nat) {
    && (Pte(mem, dir, a, b) != 0 <==> (a, b) in v.pages)
    && ((a, b) in v.pages ==> v.pages[(a, b)] == Leaf(FlagsOf(Pte(mem, dir, a, b)), Seen(mem, dir, a, b)))
  }

  ghost predicate ShowsPages(mem: seq<Frame>, dir: nat, v: Proc) {
    && (forall k :: k in v.pages ==> Private(k.0) && k.1 < ENTRIES)
    && (forall a: nat, b: nat :: Private(a) && b < ENTRIES ==> ShowsPage(mem, dir, v, a, b))
  }

  ghost predicate ShowsTables(mem: seq<Frame>, dir: nat, v: Proc) {
    && (forall a :: a in v.tables ==> Private(a))
    && (forall a: nat :: Private(a) ==> (a in v.tables <==> Present(WordOf(mem, dir, a))))
  }

  // The entries of the kernel's part, the same in all directories and never changed: tables, and the pages they map.
  datatype Links = Links(pdes: map<nat, nat>, ptes: map<(nat, nat), nat>)

  ghost predicate LinkedTo(mem: seq<Frame>, dir: nat, links: Links) {
    forall a: nat :: Linked(a) ==>
      && (a in links.pdes <==> Present(WordOf(mem, dir, a)))
      && (a in links.pdes ==> WordOf(mem, dir, a) == links.pdes[a])
  }

  // A frame in use that no space has for its own.
  ghost predicate Outside(mem: seq<Frame>, free: seq<nat>, spaces: Population, f: nat) {
    f < |mem| && !Counted(free, spaces, f)
  }

  ghost predicate KernelTables(mem: seq<Frame>, free: seq<nat>, spaces: Population, links: Links) {
    && (forall a :: a in links.pdes ==>
                      Linked(a) && Present(links.pdes[a]) && Outside(mem, free, spaces, FrameOf(links.pdes[a])))
    && (forall a, b: nat :: a in links.pdes && b < ENTRIES ==>
                              var e := WordOf(mem, FrameOf(links.pdes[a]), b);
                              if (a, b) in links.ptes then e == links.ptes[(a, b)] else !Present(e))
  }

  ghost predicate KernelPages(mem: seq<Frame>, free: seq<nat>, spaces: Population, links: Links, shared: map<(nat, nat), Frame>) {
    && (forall k :: k in links.ptes ==>
                      && k.0 in links.pdes && k.1 < ENTRIES && Present(links.ptes[k])
                      && Outside(mem, free, spaces, FrameOf(links.ptes[k])))
    && (forall k, l :: k in links.ptes && l in links.ptes && k != l ==> FrameOf(links.ptes[k]) != FrameOf(links.ptes[l]))
    && (forall k, a :: k in links.ptes && a in links.pdes ==> FrameOf(links.ptes[k]) != FrameOf(links.pdes[a]))
    && shared.Keys == links.ptes.Keys
    && (forall k :: k in shared ==> shared[k] == mem[FrameOf(links.ptes[k])])
  }

  ghost predicate ShowsProc(mem: seq<Frame>, dir: nat, frames: nat, v: Proc, links: Links) {
    ShowsPages(mem, dir, v) && ShowsTables(mem, dir, v) && LinkedTo(mem, dir, links) && frames == Cost(v)
  }

  // Every process has a directory of its own, which shows its tables and pages and the kernel's, and has a frame for each.
  ghost predicate Resident(mem: seq<Frame>, spaces: Population, links: Links, dirs: map<nat, nat>, procs: map<nat, Proc>) {
    && dirs.Keys == procs.Keys
    && (forall p :: p in dirs ==> dirs[p] in spaces && ShowsProc(mem, dirs[p], |spaces[dirs[p]]|, procs[p], links))
    && (forall p, q :: p in dirs && q in dirs && p != q ==> dirs[p] != dirs[q])
  }

  ghost predicate Shows(mem: seq<Frame>, free: seq<nat>, spaces: Population, links: Links, dirs: map<nat, nat>, w: World) {
    && Populated(mem, free, spaces) && Resident(mem, spaces, links, dirs, w.procs)
    && KernelTables(mem, free, spaces, links) && KernelPages(mem, free, spaces, links, w.shared)
  }

  lemma ProcShown(mem: seq<Frame>, free: seq<nat>, spaces: Population, links: Links, dirs: map<nat, nat>, w: World, p: nat)
    requires Shows(mem, free, spaces, links, dirs, w) && p in w.procs
    ensures Populated(mem, free, spaces) && p in dirs && dirs[p] in spaces && dirs.Keys == w.procs.Keys
    ensures ShowsProc(mem, dirs[p], |spaces[dirs[p]]|, w.procs[p], links) && |spaces[dirs[p]]| == Cost(w.procs[p])
  {
    hide ShowsPages, ShowsTables, LinkedTo, Populated, KernelTables, KernelPages;
  }

  /** Every process sees the kernel's pages, the same ones. */
  lemma SharedShown(mem: seq<Frame>, free: seq<nat>, spaces: Population, links: Links, dirs: map<nat, nat>, w: World,
                    p: nat, a: nat, b: nat)
    requires Shows(mem, free, spaces, links, dirs, w) && p in dirs && Linked(a) && b < ENTRIES
    ensures Pte(mem, dirs[p], a, b) != 0 <==> (a, b) in w.shared
    ensures (a, b) in w.shared ==> Pte(mem, dirs[p], a, b) == links.ptes[(a, b)] && Seen(mem, dirs[p], a, b) == w.shared[(a, b)]
  {
    hide Populated, ShowsPages, ShowsTables;
  }

  // ---- one process changed -----------------------------------------------------------------------

  lemma KernelKept(mem: seq<Frame>, free: seq<nat>, spaces: Population, mem': seq<Frame>, free': seq<nat>, spaces': Population,
                   links: Links, shared: map<(nat, nat), Frame>)
    requires KernelTables(mem, free, spaces, links) && KernelPages(mem, free, spaces, links, shared)
    requires Conserves(mem, free, spaces, mem', free', spaces')
    ensures KernelTables(mem', free', spaces', links) && KernelPages(mem', free', spaces', links, shared)
  {
    hide Counted, Linked;
    forall f: nat | Outside(mem, free, spaces, f) ensures Outside(mem', free', spaces', f) && mem'[f] == mem[f] {
    }
  }

  lemma FramesKept(mem: seq<Frame>, free: seq<nat>, spaces: Population, mem': seq<Frame>, free': seq<nat>, spaces': Population)
    requires Conserves(mem, free, spaces, mem', free', spaces')
    ensures SameFrames(free, spaces, free', spaces')
  {
    hide Counted;
  }

  lemma ProcKept(mem: seq<Frame>, mem': seq<Frame>, dir: nat, frames: nat, v: Proc, links: Links)
    requires ShowsProc(mem, dir, frames, v, links) && SameView(mem, mem', dir) && SameDir(mem, mem', dir)
    ensures ShowsProc(mem', dir, frames, v, links)
  {
    hide Pte, Seen, WordOf, FlagsOf;
    forall a: nat, b: nat | Private(a) && b < ENTRIES ensures ShowsPage(mem', dir, v, a, b) {
      assert ShowsPage(mem, dir, v, a, b);
    }
  }

  // The two tables of directories, and of processes, agree except at q.
  ghost predicate Besides<V>(a: map<nat, V>, b: map<nat, V>, q: nat) {
    forall p :: p != q ==> (p in a <==> p in b) && (p in a ==> a[p] == b[p])
  }

  lemma ResidentKept(mem: seq<Frame>, spaces: Population, links: Links, dirs: map<nat, nat>, procs: map<nat, Proc>,
                     mem': seq<Frame>, spaces': Population, dirs': map<nat, nat>, procs': map<nat, Proc>, q: nat, dir: nat)
    requires Resident(mem, spaces, links, dirs, procs) && OthersKept(mem, spaces, mem', spaces', dir)
    requires Besides(dirs, dirs', q) && Besides(procs, procs', q)
    requires if q in dirs then dirs[q] == dir else dir !in spaces
    requires (q in dirs' <==> q in procs') && (q in dirs' ==> dirs'[q] == dir && dir in spaces')
    requires q in dirs' ==> ShowsProc(mem', dir, |spaces'[dir]|, procs'[q], links)
    ensures Resident(mem', spaces', links, dirs', procs')
  {
    hide ShowsProc, SameView, SameDir;
    forall p | p in dirs' && p != q
      ensures dirs'[p] in spaces' && p in procs' && ShowsProc(mem', dirs'[p], |spaces'[dirs'[p]]|, procs'[p], links)
    {
      ProcKept(mem, mem', dirs[p], |spaces[dirs[p]]|, procs[p], links);
    }
  }

  /** A change of one process, in frames of its own or of nobody: all other processes still see their pages. */
  lemma StepShown(mem: seq<Frame>, free: seq<nat>, spaces: Population, links: Links, dirs: map<nat, nat>, w: World,
                  mem': seq<Frame>, free': seq<nat>, spaces': Population, dirs': map<nat, nat>, w': World, q: nat, dir: nat)
    requires Shows(mem, free, spaces, links, dirs, w) && Populated(mem', free', spaces')
    requires OthersKept(mem, spaces, mem', spaces', dir) && Conserves(mem, free, spaces, mem', free', spaces')
    requires Besides(dirs, dirs', q) && Besides(w.procs, w'.procs, q) && w'.shared == w.shared
    requires if q in dirs then dirs[q] == dir else dir !in spaces
    requires (q in dirs' <==> q in w'.procs) && (q in dirs' ==> dirs'[q] == dir && dir in spaces')
    requires q in dirs' ==> ShowsProc(mem', dir, |spaces'[dir]|, w'.procs[q], links)
    ensures Shows(mem', free', spaces', links, dirs', w') && SameFrames(free, spaces, free', spaces')
  {
    hide Populated, KernelTables, KernelPages, Conserves, ShowsProc, OthersKept, Resident, Besides;
    KernelKept(mem, free, spaces, mem', free', spaces', links, w.shared);
    FramesKept(mem, free, spaces, mem', free', spaces');
    hide SameFrames;
    ResidentKept(mem, spaces, links, dirs, w.procs, mem', spaces', dirs', w'.procs, q, dir);
  }

  // ---- single operations ---------------------------------------------------------------------------

  lemma CopyShown(mem0: seq<Frame>, cur: nat, mem: seq<Frame>, dir: nat, frames: nat, v: Proc, links: Links)
    requires ShowsProc(mem0, cur, frames, v, links) && Copies(mem0, cur, mem, dir) && SameLinks(mem0, cur, mem, dir)
    requires forall pd: nat :: pd < RECURSIVE ==> ClonedPde(mem0, cur, mem, dir, pd)
    ensures ShowsProc(mem, dir, frames, v, links)
  {
    hide Pte, Seen, FlagsOf, WordOf;
    forall a: nat, b: nat | Private(a) && b < ENTRIES ensures ShowsPage(mem, dir, v, a, b) {
      assert ShowsPage(mem0, cur, v, a, b);
    }
    forall a: nat | Private(a) ensures a in v.tables <==> Present(WordOf(mem, dir, a)) {
      assert ClonedPde(mem0, cur, mem, dir, a);
    }
  }

  method DoFork(m: Memory, p: nat, c: nat, dirs: map<nat, nat>, ghost links: Links, ghost spaces: Population, ghost w: World)
    returns (ok: bool, dirs': map<nat, nat>, ghost spaces': Population)
    requires m.Valid() && Shows(m.mem, m.free, spaces, links, dirs, w) && Allowed(w, ForkOp(p, c))
    modifies m
    ensures m.Valid() && (ok <==> old(m.numPages) >= Cost(w.procs[p]))
    ensures ok ==>
              && Shows(m.mem, m.free, spaces', links, dirs', Updated(w, c, w.procs[p]))
              && m.numPages == old(m.numPages) - Cost(w.procs[p])
              && SameFrames(old(m.free), spaces, m.free, spaces')
  {
    hide Shows, ShowsProc, OthersKept, Conserves, SameFrames, Cost, Populated, Copies, CloneCost, ClonedPde, SameLinks;
    var dir;
    dirs' := dirs;
    ProcShown(m.mem, m.free, spaces, links, dirs, w, p);
    ok, dir, spaces' := Fork(m, dirs[p], spaces);
    if ok {
      dirs' := dirs[c := dir];
      CopyShown(old(m.mem), dirs[p], m.mem, dir, |spaces'[dir]|, w.procs[p], links);
      StepShown(old(m.mem), old(m.free), spaces, links, dirs, w, m.mem, m.free, spaces', dirs', Updated(w, c, w.procs[p]), c, dir);
    }
  }

  ghost predicate SameFrames(free: seq<nat>, spaces: Population, free': seq<nat>, spaces': Population) {
    forall f :: Counted(free', spaces', f) <==> Counted(free, spaces, f)
  }

  method DoRelease(m: Memory, p: nat, dirs: map<nat, nat>, ghost links: Links, ghost spaces: Population, ghost w: World)
    returns (dirs': map<nat, nat>, ghost spaces': Population)
    requires m.Valid() && Shows(m.mem, m.free, spaces, links, dirs, w) && Allowed(w, ReleaseOp(p))
    modifies m
    ensures m.Valid() && Shows(m.mem, m.free, spaces', links, dirs', w.(procs := w.procs - {p}))
    ensures m.numPages == old(m.numPages) + Cost(w.procs[p])
    ensures SameFrames(old(m.free), spaces, m.free, spaces')
  {
    hide Shows, ShowsProc, OthersKept, Conserves, SameFrames, Cost, Populated;
    ProcShown(m.mem, m.free, spaces, links, dirs, w, p);
    Release(m, dirs[p], spaces);
    spaces', dirs' := spaces - {dirs[p]}, dirs - {p};
    StepShown(old(m.mem), old(m.free), spaces, links, dirs, w, m.mem, m.free, spaces', dirs', w.(procs := w.procs - {p}), p, dirs[p]);
  }

  lemma MapShown(mem: seq<Frame>, mem': seq<Frame>, dir: nat, v: Proc, links: Links, pd: nat, pt: nat, f: nat, flags: nat, page: Frame)
    requires ShowsProc(mem, dir, Cost(v), v, links) && Private(pd) && pt < ENTRIES && flags < PAGE && flags % 2 == 1
    requires OnePage(mem, mem', dir, pd, pt, Entry(f, flags), page) && dir < |mem| == |mem'|
    requires mem'[dir] == mem[dir][pd := mem'[dir][pd]] && Present(mem'[dir][pd])
    requires (pd, pt) !in v.pages
    ensures var v' := WithPage(v, pd, pt, Leaf(flags, page));
            ShowsProc(mem', dir, Cost(v'), v', links) && Cost(v') == Cost(v) + if pd in v.tables then 1 else 2
  {
    var v' := WithPage(v, pd, pt, Leaf(flags, page));
    PagesMore(v.pages, (pd, pt), Leaf(flags, page));
    if pd in v.tables {
      assert v'.tables == v.tables;
    }
    MapPagesShown(mem, mem', dir, v, pd, pt, f, flags, page);
    MapTablesShown(mem, mem', dir, v, links, pd, Leaf(flags, page), pt);
    hide OnePage, ShowsPages, ShowsTables, LinkedTo;
  }

  lemma MapTablesShown(mem: seq<Frame>, mem': seq<Frame>, dir: nat, v: Proc, links: Links, pd: nat, leaf: Leaf, pt: nat)
    requires ShowsTables(mem, dir, v) && LinkedTo(mem, dir, links) && Private(pd) && dir < |mem| == |mem'|
    requires mem'[dir] == mem[dir][pd := mem'[dir][pd]] && Present(mem'[dir][pd])
    ensures ShowsTables(mem', dir, WithPage(v, pd, pt, leaf)) && LinkedTo(mem', dir, links)
  {
    hide Present;
  }

  lemma MapPagesShown(mem: seq<Frame>, mem': seq<Frame>, dir: nat, v: Proc, pd: nat, pt: nat, f: nat, flags: nat, page: Frame)
    requires ShowsPages(mem, dir, v) && Private(pd) && pt < ENTRIES && flags < PAGE && flags % 2 == 1
    requires OnePage(mem, mem', dir, pd, pt, Entry(f, flags), page)
    ensures ShowsPages(mem', dir, WithPage(v, pd, pt, Leaf(flags, page)))
  {
    hide Pte, Seen, FlagsOf;
    var v' := WithPage(v, pd, pt, Leaf(flags, page));
    assert Entry(f, flags) != 0;
    forall a: nat, b: nat | Private(a) && b < ENTRIES ensures ShowsPage(mem', dir, v', a, b) {
      assert ShowsPage(mem, dir, v, a, b);
    }
  }

  // What a process has mapped, as the memory tells it.
  lemma PageShown(mem: seq<Frame>, dir: nat, frames: nat, v: Proc, links: Links, a: nat, b: nat)
    requires ShowsProc(mem, dir, frames, v, links) && Private(a) && b < ENTRIES
    ensures Pte(mem, dir, a, b) != 0 <==> (a, b) in v.pages
    ensures a in v.tables <==> Present(WordOf(mem, dir, a))
  {
    hide Pte, WordOf, Seen, FlagsOf, LinkedTo;
    assert ShowsPage(mem, dir, v, a, b);
  }

  lemma PagesMore(pages: map<(nat, nat), Leaf>, k: (nat, nat), leaf: Leaf)
    requires k !in pages
    ensures |pages[k := leaf]| == |pages| + 1
  {
    assert pages[k := leaf].Keys == pages.Keys + {k};
    assert |pages[k := leaf]| == |pages[k := leaf].Keys| && |pages| == |pages.Keys|;
  }

  method DoMap(m: Memory, p: nat, pd: nat, pt: nat, flags: nat, dirs: map<nat, nat>, ghost links: Links, ghost spaces: Population, ghost w: World)
    returns (ok: bool, ghost spaces': Population, ghost data: Frame)
    requires m.Valid() && Shows(m.mem, m.free, spaces, links, dirs, w) && Allowed(w, MapOp(p, pd, pt, flags))
    modifies m
    ensures m.Valid() && (ok <==> old(m.numPages) >= Need(w, MapOp(p, pd, pt, flags)))
    ensures ok ==>
              && data[0] == 0
              && Shows(m.mem, m.free, spaces', links, dirs, Updated(w, p, WithPage(w.procs[p], pd, pt, Leaf(flags, data))))
              && m.numPages == old(m.numPages) - Need(w, MapOp(p, pd, pt, flags))
              && Cost(WithPage(w.procs[p], pd, pt, Leaf(flags, data))) == Cost(w.procs[p]) + Need(w, MapOp(p, pd, pt, flags))
              && SameFrames(old(m.free), spaces, m.free, spaces')
  {
    hide Shows, ShowsProc, OthersKept, Conserves, SameFrames, Cost, Pte, OnePage, Populated, Present, WordOf;
    ProcShown(m.mem, m.free, spaces, links, dirs, w, p);
    var dir := dirs[p];
    ghost var v := w.procs[p];
    PageShown(m.mem, dir, |spaces[dir]|, v, links, pd, pt);
    var f;
    data := ZeroFrame();
    ok, f, spaces' := MapPage(m, dir, pd, pt, flags, spaces);
    if ok {
      data := old(m.mem)[f][0 := 0];
      MapShown(old(m.mem), m.mem, dir, v, links, pd, pt, f, flags, data);
      ghost var v' := WithPage(v, pd, pt, Leaf(flags, data));
      StepShown(old(m.mem), old(m.free), spaces, links, dirs, w, m.mem, m.free, spaces', dirs, Updated(w, p, v'), p, dir);
    }
  }

  lemma FreeShown(mem: seq<Frame>, mem': seq<Frame>, dir: nat, v: Proc, links: Links, pd: nat, pt: nat)
    requires ShowsProc(mem, dir, Cost(v), v, links) && Private(pd) && pt < ENTRIES && (pd, pt) in v.pages
    requires OnePage(mem, mem', dir, pd, pt, 0, ZeroFrame()) && SameDir(mem, mem', dir)
    ensures ShowsProc(mem', dir, Cost(v) - 1, WithoutPage(v, pd, pt), links)
    ensures Cost(WithoutPage(v, pd, pt)) == Cost(v) - 1
  {
    hide Pte, Seen, WordOf;
    var v' := WithoutPage(v, pd, pt);
    forall a: nat, b: nat | Private(a) && b < ENTRIES ensures ShowsPage(mem', dir, v', a, b) {
      assert ShowsPage(mem, dir, v, a, b);
    }
    var k := (pd, pt);
    assert v'.pages[k := v.pages[k]] == v.pages;
    PagesMore(v'.pages, k, v.pages[k]);
  }

  method DoFree(m: Memory, p: nat, pd: nat, pt: nat, dirs: map<nat, nat>, ghost links: Links, ghost spaces: Population, ghost w: World)
    returns (ghost spaces': Population)
    requires m.Valid() && Shows(m.mem, m.free, spaces, links, dirs, w) && Allowed(w, FreeOp(p, pd, pt))
    modifies m
    ensures m.Valid() && Shows(m.mem, m.free, spaces', links, dirs, Updated(w, p, WithoutPage(w.procs[p], pd, pt)))
    ensures m.numPages == old(m.numPages) + 1 && SameFrames(old(m.free), spaces, m.free, spaces')
    ensures Cost(WithoutPage(w.procs[p], pd, pt)) == Cost(w.procs[p]) - 1
  {
    hide Shows, ShowsProc, OthersKept, Conserves, SameFrames, Cost, Pte, OnePage, Populated, Present, WordOf, SameDir;
    ProcShown(m.mem, m.free, spaces, links, dirs, w, p);
    var dir := dirs[p];
    ghost var v := w.procs[p];
    PageShown(m.mem, dir, |spaces[dir]|, v, links, pd, pt);
    spaces' := FreePage(m, dir, pd, pt, spaces);
    FreeShown(old(m.mem), m.mem, dir, v, links, pd, pt);
    StepShown(old(m.mem), old(m.free), spaces, links, dirs, w, m.mem, m.free, spaces', dirs,
              Updated(w, p, WithoutPage(v, pd, pt)), p, dir);
  }

  lemma StoreShown(mem: seq<Frame>, free: seq<nat>, spaces: Population, s: Store, v: Proc, links: Links)
    requires Populated(mem, free, spaces) && s.dir in spaces && StoreOk(s) && ShowsProc(mem, s.dir, Cost(v), v, links)
    ensures ShowsProc(Do(mem, s), s.dir, Cost(v), Stored(v, (s.pd, s.pt), s.i, s.v), links)
    ensures Cost(Stored(v, (s.pd, s.pt), s.i, s.v)) == Cost(v) && OthersKept(mem, spaces, Do(mem, s), spaces, s.dir)
  {
    hide Populated, Pte, Seen, Do, WordOf;
    StoreKeeps(mem, free, spaces, s);
    StoreConserves(mem, free, spaces, s);
    hide Conserves;
    var v' := Stored(v, (s.pd, s.pt), s.i, s.v);
    forall a: nat, b: nat | Private(a) && b < ENTRIES ensures ShowsPage(Do(mem, s), s.dir, v', a, b) {
      assert ShowsPage(mem, s.dir, v, a, b);
    }
    forall d, a: nat, b: nat | d in spaces && d != s.dir && Private(a) && b < ENTRIES ensures Seen(Do(mem, s), d, a, b) == Seen(mem, d, a, b) {
      UnseenZero(mem, Do(mem, s), d, a, b);
    }
    if (s.pd, s.pt) in v.pages {
      assert v'.pages.Keys == v.pages.Keys;
      assert |v'.pages| == |v'.pages.Keys| && |v.pages| == |v.pages.Keys|;
    }
  }

  lemma UnseenZero(mem: seq<Frame>, mem': seq<Frame>, dir: nat, a: nat, b: nat)
    requires Pte(mem', dir, a, b) == Pte(mem, dir, a, b)
    ensures Pte(mem, dir, a, b) == 0 ==> Seen(mem', dir, a, b) == Seen(mem, dir, a, b)
  {
    hide Pte;
  }

  method DoStore(m: Memory, p: nat, pd: nat, pt: nat, i: nat, x: nat, dirs: map<nat, nat>, ghost links: Links, ghost spaces: Population, ghost w: World)
    requires m.Valid() && Shows(m.mem, m.free, spaces, links, dirs, w) && Allowed(w, StoreOp(p, pd, pt, i, x)) && Private(pd)
    modifies m`mem
    ensures m.Valid() && Shows(m.mem, m.free, spaces, links, dirs, Updated(w, p, Stored(w.procs[p], (pd, pt), i, x)))
    ensures Cost(Stored(w.procs[p], (pd, pt), i, x)) == Cost(w.procs[p])
  {
    hide Shows, ShowsProc, OthersKept, Conserves, SameFrames, Cost, Pte, Populated, SameDir, Do, Stored;
    ProcShown(m.mem, m.free, spaces, links, dirs, w, p);
    var s := Store(dirs[p], pd, pt, i, x);
    StoreShown(m.mem, m.free, spaces, s, w.procs[p], links);
    StoreWord(m, s, spaces);
    StepShown(old(m.mem), m.free, spaces, links, dirs, w, m.mem, m.free, spaces, dirs,
              Updated(w, p, Stored(w.procs[p], (pd, pt), i, x)), p, dirs[p]);
  }

  // A kernel page has changed: every process still sees its own pages.
  lemma KernelStored(mem: seq<Frame>, free: seq<nat>, spaces: Population, links: Links, dirs: map<nat, nat>, w: World,
                     k: (nat, nat), page: Frame, mem': seq<Frame>)
    requires Shows(mem, free, spaces, links, dirs, w) && k in w.shared
    requires k in links.ptes && FrameOf(links.ptes[k]) < |mem| && mem' == mem[FrameOf(links.ptes[k]) := page]
    ensures Shows(mem', free, spaces, links, dirs, w.(shared := w.shared[k := page]))
  {
    hide Populated, KernelTables, Resident, SameView, SameDir;
    var f := FrameOf(links.ptes[k]);
    KernelStore(mem, free, spaces, links, w.shared, k, page, mem');
    assert Outside(mem, free, spaces, f);
    hide KernelPages;
    NotOwned(free, spaces, f);
    Elsewhere(mem, free, spaces, mem', free);
    ResidentSame(mem, spaces, links, dirs, w.procs, mem');
  }

  lemma ResidentSame(mem: seq<Frame>, spaces: Population, links: Links, dirs: map<nat, nat>, procs: map<nat, Proc>, mem': seq<Frame>)
    requires Resident(mem, spaces, links, dirs, procs)
    requires forall d :: d in spaces ==> SameView(mem, mem', d) && SameDir(mem, mem', d)
    ensures Resident(mem', spaces, links, dirs, procs)
  {
    hide ShowsProc, SameView, SameDir;
    forall p | p in dirs ensures ShowsProc(mem', dirs[p], |spaces[dirs[p]]|, procs[p], links) {
      ProcKept(mem, mem', dirs[p], |spaces[dirs[p]]|, procs[p], links);
    }
  }

  lemma NotOwned(free: seq<nat>, spaces: Population, f: nat)
    requires !Counted(free, spaces, f)
    ensures f !in free && forall d :: d in spaces ==> f !in spaces[d]
  {
  }

  lemma KernelStore(mem: seq<Frame>, free: seq<nat>, spaces: Population, links: Links, shared: map<(nat, nat), Frame>,
                    k: (nat, nat), page: Frame, mem': seq<Frame>)
    requires KernelTables(mem, free, spaces, links) && KernelPages(mem, free, spaces, links, shared)
    requires k in links.ptes && FrameOf(links.ptes[k]) < |mem| && mem' == mem[FrameOf(links.ptes[k]) := page]
    ensures KernelTables(mem', free, spaces, links) && KernelPages(mem', free, spaces, links, shared[k := page])
  {
    hide Counted, Linked, FrameOf, Present, KernelTables, WordOf;
    TablesStore(mem, free, spaces, links, FrameOf(links.ptes[k]), page, mem');
    var shared' := shared[k := page];
    forall l | l in links.ptes
      ensures Outside(mem', free, spaces, FrameOf(links.ptes[l])) && shared'[l] == mem'[FrameOf(links.ptes[l])]
    {
      assert Outside(mem, free, spaces, FrameOf(links.ptes[l]));
    }
  }

  lemma TablesStore(mem: seq<Frame>, free: seq<nat>, spaces: Population, links: Links, f: nat, page: Frame, mem': seq<Frame>)
    requires KernelTables(mem, free, spaces, links) && f < |mem| && mem' == mem[f := page]
    requires forall a :: a in links.pdes ==> f != FrameOf(links.pdes[a])
    ensures KernelTables(mem', free, spaces, links)
  {
    hide Counted, Linked, FrameOf, Present;
    forall a | a in links.pdes ensures Outside(mem', free, spaces, FrameOf(links.pdes[a])) {
      assert Outside(mem, free, spaces, FrameOf(links.pdes[a]));
    }
  }

  // A store to the kernel's part, through the directory of the storing process.
  method DoShared(m: Memory, p: nat, pd: nat, pt: nat, i: nat, x: nat, dirs: map<nat, nat>, ghost links: Links, ghost spaces: Population, ghost w: World)
    requires m.Valid() && Shows(m.mem, m.free, spaces, links, dirs, w) && Allowed(w, StoreOp(p, pd, pt, i, x)) && Linked(pd)
    modifies m`mem
    ensures m.Valid() && Shows(m.mem, m.free, spaces, links, dirs, w.(shared := StoredShared(w.shared, (pd, pt), i, x)))
  {
    hide Populated, Resident, KernelTables, KernelPages;
    ghost var k, mem0 := (pd, pt), m.mem;
    ProcShown(mem0, m.free, spaces, links, dirs, w, p);
    SharedWalk(mem0, m.free, spaces, links, dirs, w, p, dirs[p], pd, pt);
    var pde := m.mem[dirs[p]][pd];
    if pde % 2 == 1 {
      var pte := m.mem[pde / PAGE][pt];
      if pte % 2 == 1 {
        SharedFrame(mem0, m.free, spaces, links, w.shared, k);
        m.Put(pte / PAGE, i, x);
        KernelStored(mem0, m.free, spaces, links, dirs, w, k, w.shared[k][i := x], m.mem);
      }
    }
  }

  // The two levels of a page of the kernel, as they are read.
  lemma SharedWalk(mem: seq<Frame>, free: seq<nat>, spaces: Population, links: Links, dirs: map<nat, nat>, w: World,
                   p: nat, dir: nat, pd: nat, pt: nat)
    requires p in dirs && dir == dirs[p] && Linked(pd) && pt < ENTRIES
    requires Shows(mem, free, spaces, links, dirs, w)
    ensures dir < |mem|
    ensures var e := WordOf(mem, dir, pd);
            if e % 2 == 1 then
              && e / PAGE < |mem|
              && (WordOf(mem, e / PAGE, pt) % 2 == 1 <==> (pd, pt) in w.shared)
              && ((pd, pt) in w.shared ==>
                    (pd, pt) in links.ptes && WordOf(mem, e / PAGE, pt) == links.ptes[(pd, pt)])
            else (pd, pt) !in w.shared
  {
    ProcShown(mem, free, spaces, links, dirs, w, p);
    assert dir < |mem| by { Walk(mem, free, spaces, dir, USER_STACK_PDE, 0); }
    hide Populated, Resident, ShowsPages, ShowsTables, Counted, KernelTables;
    assert forall k :: k in w.shared <==> k in links.ptes && k.0 in links.pdes && Present(links.ptes[k]);
    hide KernelPages;
    if pd in links.pdes {
      TableShown(mem, free, spaces, links, pd, pt);
    }
  }

  lemma TableShown(mem: seq<Frame>, free: seq<nat>, spaces: Population, links: Links, pd: nat, pt: nat)
    requires KernelTables(mem, free, spaces, links) && pd in links.pdes && pt < ENTRIES
    ensures Present(links.pdes[pd]) && FrameOf(links.pdes[pd]) < |mem|
    ensures var e := WordOf(mem, FrameOf(links.pdes[pd]), pt);
            if (pd, pt) in links.ptes then e == links.ptes[(pd, pt)] else !Present(e)
  {
    hide Counted;
    assert Outside(mem, free, spaces, FrameOf(links.pdes[pd]));
  }

  lemma SharedFrame(mem: seq<Frame>, free: seq<nat>, spaces: Population, links: Links, shared: map<(nat, nat), Frame>, k: (nat, nat))
    requires KernelPages(mem, free, spaces, links, shared) && k in shared
    ensures k in links.ptes && FrameOf(links.ptes[k]) < |mem|
    ensures FrameOf(links.ptes[k]) !in free && shared[k] == mem[FrameOf(links.ptes[k])]
  {
    assert Outside(mem, free, spaces, FrameOf(links.ptes[k]));
  }

  // ---- runs ---------------------------------------------------------------------------------------

  /** One operation fails exactly when it asks for more frames than are free. Otherwise the memory shows what the tables
      of pages are after it, and what the processes have more is what the free list has less. */
  method DoOp(m: Memory, op: ProcOp, dirs: map<nat, nat>, ghost links: Links, ghost spaces: Population, ghost w: World)
    returns (ok: bool, dirs': map<nat, nat>, ghost spaces': Population, ghost w': World)
    requires m.Valid() && Shows(m.mem, m.free, spaces, links, dirs, w) && Allowed(w, op)
    modifies m
    ensures m.Valid() && (ok <==> old(m.numPages) >= Need(w, op))
    ensures ok ==>
              && Next(w, op, w') && Shows(m.mem, m.free, spaces', links, dirs', w')
              && m.numPages + Total(w'.procs) == old(m.numPages) + Total(w.procs)
              && SameFrames(old(m.free), spaces, m.free, spaces')
  {
    hide Shows, SameFrames, Total, Cost, Stored, StoredShared, WithPage, WithoutPage;
    ok, dirs', spaces', w' := true, dirs, spaces, w;
    FramesSame(m.free, spaces);
    TotalPick(w.procs, op.p);
    match op {
      case ForkOp(p, c) =>
        ok, dirs', spaces' := DoFork(m, p, c, dirs, links, spaces, w);
        w' := Updated(w, c, w.procs[p]);
        TotalUpdate(w.procs, c, w.procs[p]);
        assert w.procs - {c} == w.procs;
      case ReleaseOp(p) =>
        dirs', spaces' := DoRelease(m, p, dirs, links, spaces, w);
        w' := w.(procs := w.procs - {p});
      case StoreOp(p, pd, pt, i, v) =>
        if pd < USER_STACK_PDE || (HEAP_START_PDE <= pd && pd < HEAP_END_PDE) {
          DoShared(m, p, pd, pt, i, v, dirs, links, spaces, w);
          w' := w.(shared := StoredShared(w.shared, (pd, pt), i, v));
        } else {
          DoStore(m, p, pd, pt, i, v, dirs, links, spaces, w);
          w' := Updated(w, p, Stored(w.procs[p], (pd, pt), i, v));
          TotalUpdate(w.procs, p, w'.procs[p]);
        }
      case MapOp(p, pd, pt, flags) =>
        ghost var data;
        ok, spaces', data := DoMap(m, p, pd, pt, flags, dirs, links, spaces, w);
        w' := Updated(w, p, WithPage(w.procs[p], pd, pt, Leaf(flags, data)));
        TotalUpdate(w.procs, p, w'.procs[p]);
      case FreeOp(p, pd, pt) =>
        spaces' := DoFree(m, p, pd, pt, dirs, links, spaces, w);
        w' := Updated(w, p, WithoutPage(w.procs[p], pd, pt));
        TotalUpdate(w.procs, p, w'.procs[p]);
    }
  }

  lemma FramesSame(free: seq<nat>, spaces: Population)
    ensures SameFrames(free, spaces, free, spaces)
  {
  }

  // The run as far as it got: each operation was one that the callers may ask for, and there was room for it.
  ghost predicate Trace(ws: seq<World>, ops: seq<ProcOp>, n: nat, room: nat) {
    && n <= |ops| && |ws| == n + 1
    && (forall i :: 0 <= i < n ==> Runs(ws[i], ops[i], room) && Next(ws[i], ops[i], ws[i + 1]))
  }

  // May the operation be asked for, and is there room for it?
  ghost predicate Runs(w: World, op: ProcOp, room: nat) {
    Allowed(w, op) && Total(w.procs) + Need(w, op) <= room
  }

  /** Over every run each process sees its own table of pages, as if the tables were kept apart and a fork copied one, and
      all see the same pages of the kernel. The run ends early exactly where an operation may not be asked for, or asks for
      more frames than the processes leave of the room there is; that room, the frames free or part of a space, is the same
      at the end as at the start. */
  method ProcRun(m: Memory, ops: seq<ProcOp>, start: map<nat, nat>, ghost links: Links, ghost spaces0: Population, ghost w: World)
    returns (n: nat, dirs: map<nat, nat>, ghost spaces: Population, ghost ws: seq<World>)
    requires m.Valid() && Shows(m.mem, m.free, spaces0, links, start, w)
    modifies m
    ensures m.Valid() && n <= |ops| && |ws| == n + 1 && ws[0] == w
    ensures var room := old(m.numPages) + Total(w.procs);
            && Trace(ws, ops, n, room)
            && (n < |ops| ==> !Runs(ws[n], ops[n], room))
            && (n == |ops| ==>
                  && Shows(m.mem, m.free, spaces, links, dirs, ws[n]) && m.numPages + Total(ws[n].procs) == room
                  && SameFrames(old(m.free), spaces0, m.free, spaces))
  {
    hide Shows, SameFrames, Allowed, Next, Need, Total, Trace;
    n, dirs, spaces, ws := 0, start, spaces0, [w];
    ghost var room := m.numPages + Total(w.procs);
    FramesSame(m.free, spaces);
    TraceNone(w, ops, room);
    while n < |ops|
      invariant 0 <= n <= |ops| && m.Valid() && |ws| == n + 1 && ws[0] == w && Trace(ws, ops, n, room)
      invariant Shows(m.mem, m.free, spaces, links, dirs, ws[n]) && m.numPages + Total(ws[n].procs) == room
      invariant SameFrames(old(m.free), spaces0, m.free, spaces)
    {
      var may := MayDo(m, ops[n], dirs, links, spaces, ws[n]);
      if !may {
        return;
      }
      var ok, dirs';
      ghost var spaces', w';
      ghost var free1 := m.free;
      ok, dirs', spaces', w' := DoOp(m, ops[n], dirs, links, spaces, ws[n]);
      if !ok {
        return;
      }
      FramesTrans(old(m.free), spaces0, free1, spaces, m.free, spaces');
      TraceMore(ws, ops, n, room, w');
      dirs, spaces, ws := dirs', spaces', ws + [w'];
      n := n + 1;
    }
  }

  lemma TraceNone(w: World, ops: seq<ProcOp>, room: nat)
    ensures Trace([w], ops, 0, room)
  {
  }

  lemma TraceMore(ws: seq<World>, ops: seq<ProcOp>, n: nat, room: nat, w: World)
    requires Trace(ws, ops, n, room) && n < |ops| && Runs(ws[n], ops[n], room) && Next(ws[n], ops[n], w)
    ensures Trace(ws + [w], ops, n + 1, room)
  {
    hide Next, Runs;
  }

  lemma FramesTrans(f0: seq<nat>, s0: Population, f1: seq<nat>, s1: Population, f2: seq<nat>, s2: Population)
    requires SameFrames(f0, s0, f1, s1) && SameFrames(f1, s1, f2, s2)
    ensures SameFrames(f0, s0, f2, s2)
  {
    hide Counted;
  }

  // The question that is_mapped answers, and the ranges of the arguments.
  method MayDo(m: Memory, op: ProcOp, dirs: map<nat, nat>, ghost links: Links, ghost spaces: Population, ghost w: World)
    returns (may: bool)
    requires m.Valid() && Shows(m.mem, m.free, spaces, links, dirs, w)
    ensures may <==> Allowed(w, op)
  {
    hide Populated, KernelTables, KernelPages, ShowsProc;
    if op.p !in dirs {
      return false;
    }
    match op {
      case ForkOp(_, c) => may := c !in dirs;
      case ReleaseOp(_) => may := true;
      case StoreOp(_, pd, pt, i, _) => may := pd < RECURSIVE && pt < ENTRIES && i < ENTRIES;
      case MapOp(p, pd, pt, flags) =>
        if !(Private(pd) && pt < ENTRIES && flags < PAGE && flags % 2 == 1) {
          return false;
        }
        var mapped := IsMapped(m, p, pd, pt, dirs, links, spaces, w);
        may := !mapped;
      case FreeOp(p, pd, pt) =>
        if !(Private(pd) && pt < ENTRIES) {
          return false;
        }
        may := IsMapped(m, p, pd, pt, dirs, links, spaces, w);
    }
  }

  method IsMapped(m: Memory, p: nat, pd: nat, pt: nat, dirs: map<nat, nat>, ghost links: Links, ghost spaces: Population, ghost w: World)
    returns (mapped: bool)
    requires m.Valid() && Shows(m.mem, m.free, spaces, links, dirs, w) && p in w.procs && Private(pd) && pt < ENTRIES
    ensures mapped <==> (pd, pt) in w.procs[p].pages
  {
    hide Shows, Populated, ShowsProc, Pte;
    ProcShown(m.mem, m.free, spaces, links, dirs, w, p);
    PageShown(m.mem, dirs[p], |spaces[dirs[p]]|, w.procs[p], links, pd, pt);
    Walk(m.mem, m.free, spaces, dirs[p], pd, pt);
    var pde := m.mem[dirs[p]][pd];
    if pde % 2 == 0 {
      return false;
    }
    mapped := m.mem[pde / PAGE][pt] % 2 == 1;
  }

  // ---- who changes a page ----------------------------------------------------------------------------

  // Is the operation a store to page k as process p sees it? Everyone's stores to the kernel's pages are.
  predicate Hit(op: ProcOp, p: nat, k: (nat, nat)) {
    op.StoreOp? && (op.pd, op.pt) == k && (Private(k.0) ==> op.p == p)
  }

  // A page after the stores among the operations that are to it.
  function PageAfter(page: Frame, ops: seq<ProcOp>, p: nat, k: (nat, nat)): Frame
    decreases |ops|
  {
    if ops == [] then page
    else
      var op, before := ops[|ops| - 1], PageAfter(page, ops[..|ops| - 1], p, k);
      if Hit(op, p, k) && op.i < ENTRIES then before[op.i := op.v] else before
  }

  /** Isolation over every run: while a process keeps a page, the page holds what it held with the stores of that process
      alone replayed, whatever all other processes do, and a page of the kernel with the stores of all of them. */
  lemma {:induction false} RunReplays(ws: seq<World>, ops: seq<ProcOp>, n: nat, room: nat, p: nat, k: (nat, nat))
    requires Trace(ws, ops, n, room)
    ensures k in ws[0].shared && Linked(k.0) ==> k in ws[n].shared && ws[n].shared[k] == PageAfter(ws[0].shared[k], ops[..n], p, k)
    ensures p in ws[0].procs && k in ws[0].procs[p].pages && Private(k.0)
            && (forall i :: 0 <= i < n ==> ops[i] != ReleaseOp(p) && ops[i] != FreeOp(p, k.0, k.1)) ==>
              && p in ws[n].procs && k in ws[n].procs[p].pages
              && ws[n].procs[p].pages[k].data == PageAfter(ws[0].procs[p].pages[k].data, ops[..n], p, k)
              && ws[n].procs[p].pages[k].flags == ws[0].procs[p].pages[k].flags
  {
    hide Total, Need, PageAfter;
    if n == 0 {
      assert ops[..0] == [];
      AfterNone(p, k);
    } else {
      assert Trace(ws[..n], ops, n - 1, room);
      RunReplays(ws[..n], ops, n - 1, room, p, k);
      assert ops[..n][..n - 1] == ops[..n - 1] && ops[..n][n - 1] == ops[n - 1];
      AfterOne(ops[..n], p, k);
      assert Runs(ws[n - 1], ops[n - 1], room) && Next(ws[n - 1], ops[n - 1], ws[n - 1 + 1]);
    }
  }

  lemma AfterNone(p: nat, k: (nat, nat))
    ensures forall page: Frame :: PageAfter(page, [], p, k) == page
  {
  }

  lemma AfterOne(ops: seq<ProcOp>, p: nat, k: (nat, nat))
    requires ops != []
    ensures forall page: Frame :: var op, before := ops[|ops| - 1], PageAfter(page, ops[..|ops| - 1], p, k);
                                  PageAfter(page, ops, p, k) == if Hit(op, p, k) && op.i < ENTRIES then before[op.i := op.v] else before
  {
  }

  // ---- in addresses ------------------------------------------------------------------------------------

  // The page of a virtual address, as the processor finds it: ten bits for the directory, ten for the table.
  function PageOf(addr: nat): (nat, nat) {
    (addr / 0x40_0000, addr / 0x1000 % 0x400)
  }

  predicate CopiedAddress(addr: nat) {
    0x0FC0_0000 <= addr < 0xD000_0000 || 0xE000_0000 <= addr < 0xFFC0_0000
  }

  predicate SharedAddress(addr: nat) {
    addr < 0x0FC0_0000 || 0xD000_0000 <= addr < 0xE000_0000
  }

  /** What the processor finds at an address while process p runs: at a copied address the page that is p's own, in a frame
      that no other process finds at any copied address; at a shared one the same frame that every process finds there. */
  lemma FoundAt(mem: seq<Frame>, free: seq<nat>, spaces: Population, links: Links, dirs: map<nat, nat>, w: World,
                p: nat, q: nat, addr: nat, other: nat)
    requires Shows(mem, free, spaces, links, dirs, w) && p in dirs && q in dirs
    ensures var k := PageOf(addr);
            CopiedAddress(addr) ==>
              && (Pte(mem, dirs[p], k.0, k.1) != 0 <==> k in w.procs[p].pages)
              && (k in w.procs[p].pages ==> Seen(mem, dirs[p], k.0, k.1) == w.procs[p].pages[k].data)
    ensures var k, l := PageOf(addr), PageOf(other);
            CopiedAddress(addr) && CopiedAddress(other) && p != q
            && Pte(mem, dirs[p], k.0, k.1) != 0 && Pte(mem, dirs[q], l.0, l.1) != 0 ==>
              FrameOf(Pte(mem, dirs[p], k.0, k.1)) != FrameOf(Pte(mem, dirs[q], l.0, l.1))
    ensures var k := PageOf(addr);
            SharedAddress(addr) ==>
              && Pte(mem, dirs[p], k.0, k.1) == Pte(mem, dirs[q], k.0, k.1)
              && (Pte(mem, dirs[p], k.0, k.1) != 0 <==> k in w.shared)
              && (k in w.shared ==> Seen(mem, dirs[p], k.0, k.1) == w.shared[k])
  {
    hide Pte, Seen, Populated, KernelTables, KernelPages, Shows;
    var k, l := PageOf(addr), PageOf(other);
    assert k.1 < ENTRIES && l.1 < ENTRIES;
    if CopiedAddress(addr) {
      AddressRanges(addr);
      OwnPage(mem, free, spaces, links, dirs, w, p, k);
      if CopiedAddress(other) && p != q {
        AddressRanges(other);
        FramesApart(mem, free, spaces, links, dirs, w, p, q, k, l);
      }
    }
    if SharedAddress(addr) {
      AddressRanges(addr);
      SharedShown(mem, free, spaces, links, dirs, w, p, k.0, k.1);
      SharedShown(mem, free, spaces, links, dirs, w, q, k.0, k.1);
    }
  }

  lemma OwnPage(mem: seq<Frame>, free: seq<nat>, spaces: Population, links: Links, dirs: map<nat, nat>, w: World, p: nat, k: (nat, nat))
    requires Shows(mem, free, spaces, links, dirs, w) && p in dirs && Private(k.0) && k.1 < ENTRIES
    ensures p in w.procs && (Pte(mem, dirs[p], k.0, k.1) != 0 <==> k in w.procs[p].pages)
    ensures k in w.procs[p].pages ==> Seen(mem, dirs[p], k.0, k.1) == w.procs[p].pages[k].data
  {
    hide Pte, Seen, Populated, KernelTables, KernelPages, LinkedTo, ShowsTables;
    assert ShowsPage(mem, dirs[p], w.procs[p], k.0, k.1);
  }

  lemma FramesApart(mem: seq<Frame>, free: seq<nat>, spaces: Population, links: Links, dirs: map<nat, nat>, w: World,
                    p: nat, q: nat, k: (nat, nat), l: (nat, nat))
    requires Shows(mem, free, spaces, links, dirs, w) && p in dirs && q in dirs && p != q
    requires Private(k.0) && k.1 < ENTRIES && Private(l.0) && l.1 < ENTRIES
    ensures Pte(mem, dirs[p], k.0, k.1) != 0 && Pte(mem, dirs[q], l.0, l.1) != 0 ==>
              FrameOf(Pte(mem, dirs[p], k.0, k.1)) != FrameOf(Pte(mem, dirs[q], l.0, l.1))
  {
    hide Pte, Seen, KernelTables, KernelPages, ShowsProc, Space;
    if Pte(mem, dirs[p], k.0, k.1) != 0 && Pte(mem, dirs[q], l.0, l.1) != 0 {
      PageFrame(mem, dirs[p], spaces[dirs[p]], k.0, k.1);
      PageFrame(mem, dirs[q], spaces[dirs[q]], l.0, l.1);
    }
  }

  /** Whose stores change the page at an address: at a copied one those of the process, at a shared one everybody's. */
  lemma HitAt(op: ProcOp, p: nat, addr: nat)
    requires CopiedAddress(addr) || SharedAddress(addr)
    ensures Hit(op, p, PageOf(addr)) <==>
              op.StoreOp? && (op.pd, op.pt) == PageOf(addr) && (CopiedAddress(addr) ==> op.p == p)
  {
    AddressRanges(addr);
  }

  // What process q, the parent or the child of the fork at i, finds at a page that the parent had.
  ghost predicate FindsOwn(ws: seq<World>, ops: seq<ProcOp>, i: nat, n: nat, q: nat, k: (nat, nat), page: Frame)
    requires i < n <= |ops| && n < |ws|
  {
    && q in ws[n].procs && k in ws[n].procs[q].pages
    && ws[n].procs[q].pages[k].data == PageAfter(page, ops[i + 1..n], q, k)
  }

  /** Fork and then any run: at a copied address parent and child each find what the parent had at the fork with their own
      stores replayed, and nothing of the other's. */
  lemma ForkIsolates(ws: seq<World>, ops: seq<ProcOp>, i: nat, n: nat, room: nat, p: nat, c: nat, addr: nat)
    requires Trace(ws, ops, n, room) && i < n && ops[i] == ForkOp(p, c) && CopiedAddress(addr)
    ensures p in ws[i].procs && p != c
    ensures var k := PageOf(addr);
            k in ws[i].procs[p].pages ==>
              && (KeepsPage(ops[i + 1..n], p, k) ==> FindsOwn(ws, ops, i, n, p, k, ws[i].procs[p].pages[k].data))
              && (KeepsPage(ops[i + 1..n], c, k) ==> FindsOwn(ws, ops, i, n, c, k, ws[i].procs[p].pages[k].data))
  {
    hide PageAfter, Total, Need;
    var k := PageOf(addr);
    assert Runs(ws[i], ops[i], room) && Next(ws[i], ops[i], ws[i + 1]);
    AddressRanges(addr);
    if k in ws[i].procs[p].pages {
      SinceFork(ws, ops, i, n, room, p, k);
      SinceFork(ws, ops, i, n, room, c, k);
    }
  }

  lemma SinceFork(ws: seq<World>, ops: seq<ProcOp>, i: nat, n: nat, room: nat, q: nat, k: (nat, nat))
    requires Trace(ws, ops, n, room) && i < n && Private(k.0) && q in ws[i + 1].procs && k in ws[i + 1].procs[q].pages
    ensures KeepsPage(ops[i + 1..n], q, k) ==> FindsOwn(ws, ops, i, n, q, k, ws[i + 1].procs[q].pages[k].data)
  {
    hide PageAfter, Runs, Next;
    var ws', ops', m := ws[i + 1..], ops[i + 1..], n - i - 1;
    Later(ws, ops, i + 1, n, room);
    assert ops'[..m] == ops[i + 1..n] && ws'[m] == ws[n] && ws'[0] == ws[i + 1];
    if KeepsPage(ops[i + 1..n], q, k) {
      forall j | 0 <= j < m ensures ops'[j] != ReleaseOp(q) && ops'[j] != FreeOp(q, k.0, k.1) {
        assert ops'[j] == ops[i + 1..n][j];
      }
      RunReplays(ws', ops', m, room, q, k);
    }
  }

  /** At a shared address everyone finds, at any time, the stores of all processes. */
  lemma SharedByAll(ws: seq<World>, ops: seq<ProcOp>, n: nat, room: nat, addr: nat, p: nat)
    requires Trace(ws, ops, n, room) && SharedAddress(addr) && PageOf(addr) in ws[0].shared
    ensures var k := PageOf(addr);
            k in ws[n].shared && ws[n].shared[k] == PageAfter(ws[0].shared[k], ops[..n], p, k)
  {
    hide PageAfter;
    AddressRanges(addr);
    RunReplays(ws, ops, n, room, p, PageOf(addr));
  }

  // The process is not released and does not free the page.
  predicate KeepsPage(ops: seq<ProcOp>, p: nat, k: (nat, nat)) {
    forall i :: 0 <= i < |ops| ==> ops[i] != ReleaseOp(p) && ops[i] != FreeOp(p, k.0, k.1)
  }

  lemma Later(ws: seq<World>, ops: seq<ProcOp>, i: nat, n: nat, room: nat)
    requires Trace(ws, ops, n, room) && i <= n
    ensures Trace(ws[i..], ops[i..], n - i, room)
  {
    hide Next, Allowed, Total, Need;
    var ws', ops' := ws[i..], ops[i..];
    forall j | 0 <= j < n - i ensures Runs(ws'[j], ops'[j], room) && Next(ws'[j], ops'[j], ws'[j + 1]) {
      var m := i + j;
      assert Runs(ws[m], ops[m], room) && Next(ws[m], ops[m], ws[m + 1]);
    }
  }
}
