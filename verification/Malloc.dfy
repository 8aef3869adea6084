/**
The libc allocator: a list of block headers that tiles the heap, searched first
fit, split on allocation, merged with both neighbours on release, grown and
contracted by whole pages through sbrk.

malloc does not look at what sbrk returns, except for the very first page: a page
that reaches past the heap's limit is mapped all the same, and is used.
*/
module Malloc {
  import opened Block

  const META := 20
  const PAGE := 4096

  /** A block header: its own address, the size of the payload that follows it, and whether it is free.
      The order of the headers is that of the `next` links. */
  datatype Meta = Meta(addr: nat, size: nat, free: bool)

  datatype Freeing = Ignored | Freed | Aborted | Faulted

  function Payload(b: Meta): nat {
    b.addr + META
  }

  function End(b: Meta): nat {
    b.addr + META + b.size
  }

  // malloc rounds sizes up to a multiple of 4.
  function Align(size: nat): (a: nat)
    ensures size <= a < size + 4 && a % 4 == 0
  {
    if size % 4 != 0 then (size / 4 + 1) * 4 else size
  }

  // ---- the tiling invariant ------------------------------------------------

  ghost predicate Tiles(bs: seq<Meta>, start: nat, brk: nat) {
    && bs != [] && bs[0].addr == start && End(bs[|bs| - 1]) == brk
    && (forall i, j :: 0 <= i < j < |bs| && j == i + 1 ==> End(bs[i]) == bs[j].addr)
  }

  ghost predicate Merged(bs: seq<Meta>) {
    && bs != [] && bs[|bs| - 1].free
    && (forall i, j :: 0 <= i < j < |bs| && j == i + 1 ==> !(bs[i].free && bs[j].free))
  }

  ghost predicate Aligned(bs: seq<Meta>) {
    forall i :: 0 <= i < |bs| ==> bs[i].size % 4 == 0
  }

  // The blocks tile [start, brk) without gap or overlap, no two neighbours are free, and the last block is free.
  ghost predicate HeapInv(bs: seq<Meta>, start: nat, brk: nat) {
    && start % PAGE == 0 && brk % PAGE == 0
    && Aligned(bs)
    && if bs == [] then brk == start else Tiles(bs, start, brk) && Merged(bs)
  }

  lemma {:induction false} Order(bs: seq<Meta>, start: nat, brk: nat, i: nat, j: nat)
    requires Tiles(bs, start, brk) && i <= j < |bs|
    ensures start <= bs[i].addr && End(bs[j]) <= brk
    ensures i < j ==> End(bs[i]) <= bs[j].addr
    decreases j - i, i, |bs| - j
  {
    if i < j {
      Order(bs, start, brk, i, j - 1);
      assert End(bs[j - 1]) == bs[j].addr;
      Order(bs, start, brk, j, j);
    } else if i > 0 {
      Lower(bs, start, brk, i);
      Upper(bs, start, brk, j);
    } else {
      Upper(bs, start, brk, j);
    }
  }

  lemma {:induction false} Lower(bs: seq<Meta>, start: nat, brk: nat, i: nat)
    requires Tiles(bs, start, brk) && i < |bs|
    ensures start <= bs[i].addr
  {
    if i > 0 {
      Lower(bs, start, brk, i - 1);
      assert End(bs[i - 1]) == bs[i].addr;
    }
  }

  lemma {:induction false} Upper(bs: seq<Meta>, start: nat, brk: nat, i: nat)
    requires Tiles(bs, start, brk) && i < |bs|
    ensures End(bs[i]) <= brk
    decreases |bs| - i
  {
    if i < |bs| - 1 {
      assert End(bs[i]) == bs[i + 1].addr;
      Upper(bs, start, brk, i + 1);
    }
  }

  // ---- live payloads -------------------------------------------------------

  // The live payloads: address to size.
  ghost function Live(bs: seq<Meta>): map<nat, nat> {
    if bs == [] then map[]
    else
      var b := bs[|bs| - 1];
      if b.free then Live(bs[..|bs| - 1]) else Live(bs[..|bs| - 1])[Payload(b) := b.size]
  }

  ghost predicate DistinctAddrs(bs: seq<Meta>) {
    forall i, j :: 0 <= i < j < |bs| ==> bs[i].addr != bs[j].addr
  }

  lemma {:induction false} LiveIff(bs: seq<Meta>, p: nat)
    requires DistinctAddrs(bs)
    ensures p in Live(bs) <==> exists i :: 0 <= i < |bs| && !bs[i].free && Payload(bs[i]) == p
    ensures forall i :: 0 <= i < |bs| && !bs[i].free && Payload(bs[i]) == p ==> p in Live(bs) && Live(bs)[p] == bs[i].size
  {
    if bs != [] {
      var q := bs[..|bs| - 1];
      forall i | 0 <= i < |bs| - 1 ensures bs[i] == q[i] {
      }
      LiveIff(q, p);
    }
  }

  lemma TilesDistinct(bs: seq<Meta>, start: nat, brk: nat)
    requires Tiles(bs, start, brk)
    ensures DistinctAddrs(bs)
  {
    forall i, j | 0 <= i < j < |bs| ensures bs[i].addr != bs[j].addr {
      Order(bs, start, brk, i, j);
    }
  }

  /** No live payload overlaps the header of any block, free or in use. */
  lemma HeadersApart(bs: seq<Meta>, start: nat, brk: nat, p: nat, i: nat)
    requires HeapInv(bs, start, brk) && p in Live(bs) && i < |bs|
    ensures Payload(bs[i]) <= p || p + Live(bs)[p] <= bs[i].addr
  {
    assert Tiles(bs, start, brk);
    hide Tiles, Live, HeapInv;
    TilesDistinct(bs, start, brk);
    LiveIff(bs, p);
    var j :| 0 <= j < |bs| && !bs[j].free && Payload(bs[j]) == p;
    if i < j {
      Order(bs, start, brk, i, j);
    } else if j < i {
      Order(bs, start, brk, j, i);
    }
  }

  /** No two live payloads overlap, and none leaves the heap. */
  lemma LiveDisjoint(bs: seq<Meta>, start: nat, brk: nat, p: nat, q: nat)
    requires HeapInv(bs, start, brk) && p in Live(bs) && q in Live(bs)
    ensures start + 20 <= p && p + Live(bs)[p] <= brk
    ensures p != q ==> p + Live(bs)[p] + 20 <= q || q + Live(bs)[q] + 20 <= p
  {
    assert Tiles(bs, start, brk);
    hide Tiles, Live, HeapInv;
    TilesDistinct(bs, start, brk);
    LiveIff(bs, p);
    LiveIff(bs, q);
    var i :| 0 <= i < |bs| && !bs[i].free && Payload(bs[i]) == p;
    var j :| 0 <= j < |bs| && !bs[j].free && Payload(bs[j]) == q;
    Order(bs, start, brk, i, i);
    if i < j {
      Order(bs, start, brk, i, j);
    } else if j < i {
      Order(bs, start, brk, j, i);
    }
  }

  lemma {:induction false} AddrAligned(bs: seq<Meta>, start: nat, brk: nat, i: nat)
    requires Tiles(bs, start, brk) && Aligned(bs) && start % 4 == 0 && i < |bs|
    ensures bs[i].addr % 4 == 0
  {
    if i > 0 {
      AddrAligned(bs, start, brk, i - 1);
      assert End(bs[i - 1]) == bs[i].addr;
      hide Tiles, Aligned;
      EndAligned(bs[i - 1]);
    }
  }

  lemma EndAligned(b: Meta)
    requires b.addr % 4 == 0 && b.size % 4 == 0
    ensures End(b) % 4 == 0
  {
  }

  lemma LiveEq(bs: seq<Meta>, m: map<nat, nat>)
    requires DistinctAddrs(bs)
    requires forall i :: 0 <= i < |bs| && !bs[i].free ==> Payload(bs[i]) in m && m[Payload(bs[i])] == bs[i].size
    requires forall p :: p in m ==> exists i :: 0 <= i < |bs| && !bs[i].free && Payload(bs[i]) == p
    ensures Live(bs) == m
  {
    hide Live;
    forall p: nat ensures p in Live(bs) <==> p in m {
      LiveIff(bs, p);
    }
    forall p | p in m ensures Live(bs)[p] == m[p] {
      LiveIff(bs, p);
      var i :| 0 <= i < |bs| && !bs[i].free && Payload(bs[i]) == p;
    }
  }

  // ---- allocation ----------------------------------------------------------

  predicate Fits(b: Meta, need: nat) {
    b.free && b.size >= need
  }

  // Size of the last block after growing it page by page until it holds `need` bytes.
  function GrownSize(size: nat, need: nat): (z: nat)
    ensures size <= z && need <= z && (z == size || z < need + PAGE) && (z - size) % PAGE == 0
  {
    if size >= need then size else size + (need - size + PAGE - 1) / PAGE * PAGE
  }

  function Grow(bs: seq<Meta>, k: nat, need: nat): (r: seq<Meta>)
    requires k < |bs|
    ensures |r| == |bs| && r[k].size >= need
  {
    bs[k := bs[k].(size := GrownSize(bs[k].size, need))]
  }

  // Where the search of malloc ends: the first free block that is large enough, or the last block.
  function FirstFit(bs: seq<Meta>, need: nat): (k: nat)
    requires bs != []
    ensures k < |bs| && (forall j :: 0 <= j < k ==> !Fits(bs[j], need)) && (Fits(bs[k], need) || k == |bs| - 1)
  {
    if Fits(bs[0], need) || |bs| == 1 then 0 else 1 + FirstFit(bs[1..], need)
  }

  // Block k is the first free one of at least that many bytes.
  ghost predicate IsFirstFit(bs: seq<Meta>, k: nat, need: nat) {
    k < |bs| && bs[k].free && bs[k].size >= need && forall j :: 0 <= j < k ==> !(bs[j].free && bs[j].size >= need)
  }

  lemma FirstFitIs(bs: seq<Meta>, k: nat, need: nat)
    requires bs != [] && IsFirstFit(bs, k, need)
    ensures FirstFit(bs, need) == k && GrownSize(bs[k].size, need) == bs[k].size
  {
    hide FirstFit;
    var j := FirstFit(bs, need);
    assert j < k ==> !Fits(bs[j], need);
    assert k < j ==> !Fits(bs[k], need);
  }

  // The list malloc searches: a first page when there is none yet.
  function Ready(bs: seq<Meta>, start: nat): (r: seq<Meta>)
    ensures r != []
  {
    if bs == [] then [Meta(start, PAGE - META, true)] else bs
  }

  function Allocated(bs: seq<Meta>, start: nat, a: nat): seq<Meta> {
    var r := Ready(bs, start);
    var k := FirstFit(r, a + META);
    Split(Grow(r, k, a + META), k, a)
  }

  // The break after the allocation of a bytes.
  function BreakAfter(bs: seq<Meta>, start: nat, brk: nat, a: nat): nat {
    var r := Ready(bs, start);
    var k := FirstFit(r, a + META);
    (if bs == [] then start + PAGE else brk) + GrownSize(r[k].size, a + META) - r[k].size
  }

  // The heap after malloc(size) still ends within the 32-bit address space.
  predicate Addressable(bs: seq<Meta>, start: nat, brk: nat, size: nat) {
    BreakAfter(bs, start, brk, Align(size)) < WORD_LIMIT
  }

  /** An allocation can use up the last block to its last byte: the first one of a page less two headers does. */
  lemma EmptyTail(start: nat)
    requires start % PAGE == 0
    ensures var bs := Allocated([], start, PAGE - 2 * META);
            HeapInv(bs, start, start + PAGE) && BreakAfter([], start, start, PAGE - 2 * META) == start + PAGE
            && bs[|bs| - 1].size == 0
  {
    var r := Ready([], start);
    assert FirstFit(r, PAGE - META) == 0;
    assert Grow(r, 0, PAGE - META) == r;
    assert Allocated([], start, PAGE - 2 * META)
        == [Meta(start, PAGE - 2 * META, false), Meta(start + PAGE - META, 0, true)];
  }

  // Block k becomes a used block of a bytes followed by a free block of the rest.
  function Split(bs: seq<Meta>, k: nat, a: nat): (r: seq<Meta>)
    requires k < |bs| && bs[k].size >= a + META
  {
    var b := bs[k];
    bs[..k] + [Meta(b.addr, a, false), Meta(b.addr + META + a, b.size - a - META, true)] + bs[k + 1..]
  }

  lemma SplitAt(bs: seq<Meta>, k: nat, a: nat, i: nat)
    requires k < |bs| && i <= |bs|
    ensures var r := Split(Grow(bs, k, a + META), k, a);
            |r| == |bs| + 1 && r[i] ==
            if i < k then bs[i]
            else if i == k then Meta(bs[k].addr, a, false)
            else if i == k + 1 then Meta(bs[k].addr + META + a, GrownSize(bs[k].size, a + META) - a - META, true)
            else bs[i - 1]
  {
    hide GrownSize;
  }

  lemma SplitTiles(bs: seq<Meta>, start: nat, brk: nat, k: nat, a: nat)
    requires Tiles(bs, start, brk) && k < |bs|
    requires bs[k].size >= a + META || k == |bs| - 1
    ensures Tiles(Split(Grow(bs, k, a + META), k, a), start, brk + GrownSize(bs[k].size, a + META) - bs[k].size)
  {
    var r, z := Split(Grow(bs, k, a + META), k, a), GrownSize(bs[k].size, a + META);
    assert k < |bs| - 1 ==> z == bs[k].size;
    hide GrownSize, Split, Grow;
    SplitAt(bs, k, a, 0);
    SplitAt(bs, k, a, |bs|);
    forall i, j | 0 <= i < j < |r| && j == i + 1 ensures End(r[i]) == r[j].addr {
      SplitAt(bs, k, a, i);
      SplitAt(bs, k, a, j);
      var i', j' := if i <= k then i else i - 1, if i < k then j else j - 1;
      if i != k {
        assert End(bs[i']) == bs[j'].addr;
      }
    }
  }

  lemma SplitAligned(bs: seq<Meta>, k: nat, a: nat)
    requires Aligned(bs) && k < |bs| && a % 4 == 0
    ensures Aligned(Split(Grow(bs, k, a + META), k, a))
  {
    var r := Split(Grow(bs, k, a + META), k, a);
    hide GrownSize, Split, Grow;
    RestAligned(bs[k].size, GrownSize(bs[k].size, a + META), a);
    SplitAt(bs, k, a, k);
    forall i | 0 <= i < |r| ensures r[i].size % 4 == 0 {
      SplitAt(bs, k, a, i);
    }
  }

  lemma RestAligned(size: nat, z: nat, a: nat)
    requires size % 4 == 0 && a % 4 == 0 && z >= size && z >= a + META && (z - size) % PAGE == 0
    ensures (z - a - META) % 4 == 0
  {
    var d := (z - size) / PAGE;
    assert z - size == PAGE * d;
    assert PAGE * d == 4 * (1024 * d);
  }

  lemma SplitMerged(bs: seq<Meta>, k: nat, a: nat)
    requires Merged(bs) && k < |bs| && bs[k].free
    ensures Merged(Split(Grow(bs, k, a + META), k, a))
  {
    var r := Split(Grow(bs, k, a + META), k, a);
    hide GrownSize, Split, Grow;
    SplitAt(bs, k, a, |bs|);
    forall i, j | 0 <= i < j < |r| && j == i + 1 ensures !(r[i].free && r[j].free) {
      SplitAt(bs, k, a, i);
      SplitAt(bs, k, a, j);
      if i >= k + 2 {
        assert !(bs[i - 1].free && bs[j - 1].free);
      } else if i == k + 1 {
        assert !(bs[k].free && bs[j - 1].free);
      } else if i < k {
        assert !(bs[i].free && bs[j].free);
      }
    }
  }

  lemma PageSum(x: nat, d: nat)
    requires x % PAGE == 0 && d % PAGE == 0
    ensures (x + d) % PAGE == 0
  {
  }

  /** Growing the last block and splitting keeps the tiling; the heap ends higher by the pages added. */
  lemma SplitInv(bs: seq<Meta>, start: nat, brk: nat, k: nat, a: nat)
    requires bs != [] && HeapInv(bs, start, brk) && k < |bs| && bs[k].free && a % 4 == 0
    requires bs[k].size >= a + META || k == |bs| - 1
    ensures HeapInv(Split(Grow(bs, k, a + META), k, a), start, brk + GrownSize(bs[k].size, a + META) - bs[k].size)
  {
    hide Tiles, Merged, Aligned, Split, Grow, GrownSize;
    SplitTiles(bs, start, brk, k, a);
    SplitMerged(bs, k, a);
    SplitAligned(bs, k, a);
    SplitAt(bs, k, a, 0);
    PageSum(brk, GrownSize(bs[k].size, a + META) - bs[k].size);
  }

  /** Allocation adds exactly the new payload to the live ones. */
  lemma SplitLive(bs: seq<Meta>, start: nat, brk: nat, k: nat, a: nat)
    requires bs != [] && HeapInv(bs, start, brk) && k < |bs| && bs[k].free && a % 4 == 0
    requires bs[k].size >= a + META || k == |bs| - 1
    ensures Payload(bs[k]) !in Live(bs)
    ensures Live(Split(Grow(bs, k, a + META), k, a)) == Live(bs)[Payload(bs[k]) := a]
  {
    hide Live, Tiles, Merged, Aligned, Split, Grow, GrownSize;
    var r := Split(Grow(bs, k, a + META), k, a);
    SplitTiles(bs, start, brk, k, a);
    TilesDistinct(bs, start, brk);
    TilesDistinct(r, start, brk + GrownSize(bs[k].size, a + META) - bs[k].size);
    SplitLiveOf(bs, k, a);
  }

  lemma SplitLiveOf(bs: seq<Meta>, k: nat, a: nat)
    requires k < |bs| && bs[k].free && DistinctAddrs(bs) && DistinctAddrs(Split(Grow(bs, k, a + META), k, a))
    ensures Payload(bs[k]) !in Live(bs)
    ensures Live(Split(Grow(bs, k, a + META), k, a)) == Live(bs)[Payload(bs[k]) := a]
  {
    hide Live, Split, Grow, GrownSize;
    var r := Split(Grow(bs, k, a + META), k, a);
    var m := Live(bs)[Payload(bs[k]) := a];
    SplitAt(bs, k, a, k);
    LiveIff(bs, Payload(bs[k]));
    forall i | 0 <= i < |r| && !r[i].free ensures Payload(r[i]) in m && m[Payload(r[i])] == r[i].size {
      SplitAt(bs, k, a, i);
      LiveIff(bs, Payload(r[i]));
    }
    forall p | p in m ensures exists i :: 0 <= i < |r| && !r[i].free && Payload(r[i]) == p {
      SplitAt(bs, k, a, k);
      if p == Payload(bs[k]) {
        assert !r[k].free;
      } else {
        LiveIff(bs, p);
        var i :| 0 <= i < |bs| && !bs[i].free && Payload(bs[i]) == p;
        var i' := if i < k then i else i + 1;
        SplitAt(bs, k, a, i');
        assert r[i'] == bs[i];
      }
    }
    LiveEq(r, m);
  }

  // ---- release -------------------------------------------------------------

  // Block i swallows its successor.
  function Swallow(bs: seq<Meta>, i: nat): (r: seq<Meta>)
    requires i + 1 < |bs|
  {
    bs[..i] + [bs[i].(size := bs[i].size + bs[i + 1].size + META)] + bs[i + 2..]
  }

  // Block i marked free, merged with a free successor, then into a free predecessor.
  function Release(bs: seq<Meta>, i: nat): (r: seq<Meta>)
    requires i < |bs|
  {
    var b2 := Forward(bs, i);
    if i > 0 && b2[i - 1].free then Swallow(b2, i - 1) else b2
  }

  lemma SwallowTiles(bs: seq<Meta>, start: nat, brk: nat, i: nat)
    requires Tiles(bs, start, brk) && Aligned(bs) && i + 1 < |bs|
    ensures Tiles(Swallow(bs, i), start, brk) && Aligned(Swallow(bs, i))
  {
    var r := Swallow(bs, i);
    assert forall j :: 0 <= j < i ==> r[j] == bs[j];
    assert forall j :: i + 1 <= j < |r| ==> r[j] == bs[j + 1];
    assert End(bs[i]) == bs[i + 1].addr;
    assert End(r[i]) == End(bs[i + 1]);
    assert Aligned(r) by { assert bs[i].size % 4 == 0 && bs[i + 1].size % 4 == 0 && r[i].size % 4 == 0; }
    hide Swallow, Aligned;
    forall j, l | 0 <= j < l < |r| && l == j + 1 ensures End(r[j]) == r[l].addr {
      if j < i {
        assert End(bs[j]) == bs[j + 1].addr;
      } else {
        assert End(bs[j + 1]) == bs[j + 2].addr;
      }
    }
  }

  lemma MarkFreeTiles(bs: seq<Meta>, start: nat, brk: nat, i: nat)
    requires Tiles(bs, start, brk) && Aligned(bs) && i < |bs|
    ensures Tiles(bs[i := bs[i].(free := true)], start, brk) && Aligned(bs[i := bs[i].(free := true)])
  {
    var r := bs[i := bs[i].(free := true)];
    forall j, l | 0 <= j < l < |r| && l == j + 1 ensures End(r[j]) == r[l].addr {
      assert End(bs[j]) == bs[j + 1].addr;
    }
  }

  // The list after the first half of a release: block i free and merged with its successor.
  function Forward(bs: seq<Meta>, i: nat): (r: seq<Meta>)
    requires i < |bs|
    ensures i < |r|
  {
    var b1 := bs[i := bs[i].(free := true)];
    if i + 1 < |bs| && bs[i + 1].free then Swallow(b1, i) else b1
  }

  // At most one pair of neighbours is free: i - 1 and i.
  ghost predicate MergedBut(bs: seq<Meta>, i: nat) {
    && i < |bs| && bs[|bs| - 1].free && bs[i].free
    && (forall j, l :: 0 <= j < l < |bs| && l == j + 1 && l != i ==> !(bs[j].free && bs[l].free))
  }

  lemma ForwardMerged(bs: seq<Meta>, i: nat)
    requires Merged(bs) && i < |bs|
    ensures MergedBut(Forward(bs, i), i)
    ensures forall j :: 0 <= j < i ==> Forward(bs, i)[j] == bs[j]
  {
    var r := Forward(bs, i);
    var d := |bs| - |r|;
    assert r[i].free;
    assert forall j :: i < j < |r| ==> r[j] == bs[j + d];
    if i + 1 < |r| && d == 1 {
      assert !(bs[i + 1].free && bs[i + 2].free);
    }
    forall j, l | 0 <= j < l < |r| && l == j + 1 && l != i ensures !(r[j].free && r[l].free) {
      if j > i {
        assert !(bs[j + d].free && bs[j + d + 1].free);
      } else if j < i - 1 {
        assert !(bs[j].free && bs[j + 1].free);
      }
    }
  }

  lemma SwallowAt(bs: seq<Meta>, i: nat, j: nat)
    requires i + 1 < |bs| && j < |bs| - 1
    ensures Swallow(bs, i)[j] == if j < i then bs[j] else if j == i then Swallow(bs, i)[i] else bs[j + 1]
    ensures Swallow(bs, i)[i].free == bs[i].free && |Swallow(bs, i)| == |bs| - 1
  {
  }

  lemma BackwardMerged(bs: seq<Meta>, i: nat)
    requires MergedBut(bs, i)
    ensures Merged(if i > 0 && bs[i - 1].free then Swallow(bs, i - 1) else bs)
  {
    if i > 0 && bs[i - 1].free {
      var r := Swallow(bs, i - 1);
      SwallowAt(bs, i - 1, |bs| - 2);
      hide Swallow;
      forall j, l | 0 <= j < l < |r| && l == j + 1 ensures !(r[j].free && r[l].free) {
        SwallowAt(bs, i - 1, j);
        SwallowAt(bs, i - 1, l);
        var j', l' := if j < i - 1 then j else j + 1, if l < i then l else l + 1;
        assert !(bs[j'].free && bs[l'].free);
      }
    }
  }

  /** Releasing a block keeps the tiling and leaves no two free neighbours. */
  lemma ReleaseInv(bs: seq<Meta>, start: nat, brk: nat, i: nat)
    requires bs != [] && HeapInv(bs, start, brk) && i < |bs|
    ensures Release(bs, i) != [] && HeapInv(Release(bs, i), start, brk)
  {
    hide Tiles, Aligned, MergedBut;
    MarkFreeTiles(bs, start, brk, i);
    var b2 := Forward(bs, i);
    if i + 1 < |bs| && bs[i + 1].free {
      SwallowTiles(bs[i := bs[i].(free := true)], start, brk, i);
    }
    if i > 0 && b2[i - 1].free {
      SwallowTiles(b2, start, brk, i - 1);
    }
    ForwardMerged(bs, i);
    BackwardMerged(b2, i);
  }

  lemma SwallowLive(bs: seq<Meta>, start: nat, brk: nat, i: nat)
    requires Tiles(bs, start, brk) && Aligned(bs) && i + 1 < |bs| && bs[i].free && bs[i + 1].free
    ensures Live(Swallow(bs, i)) == Live(bs)
  {
    hide Live, Tiles, Aligned;
    var r := Swallow(bs, i);
    SwallowTiles(bs, start, brk, i);
    TilesDistinct(bs, start, brk);
    TilesDistinct(r, start, brk);
    assert forall j :: 0 <= j < i ==> r[j] == bs[j];
    assert forall j :: i + 1 <= j < |r| ==> r[j] == bs[j + 1];
    forall j | 0 <= j < |r| && !r[j].free ensures Payload(r[j]) in Live(bs) && Live(bs)[Payload(r[j])] == r[j].size {
      LiveIff(bs, Payload(r[j]));
      if j < i {
        assert r[j] == bs[j];
      } else {
        assert r[j] == bs[j + 1];
      }
    }
    forall p | p in Live(bs) ensures exists j :: 0 <= j < |r| && !r[j].free && Payload(r[j]) == p {
      LiveIff(bs, p);
      var j :| 0 <= j < |bs| && !bs[j].free && Payload(bs[j]) == p;
      if j < i {
        assert r[j] == bs[j];
      } else {
        assert r[j - 1] == bs[j];
      }
    }
    LiveEq(r, Live(bs));
  }

  lemma MarkFreeLive(bs: seq<Meta>, i: nat)
    requires DistinctAddrs(bs) && i < |bs|
    ensures Live(bs[i := bs[i].(free := true)]) == Live(bs) - {Payload(bs[i])}
  {
    hide Live;
    var r, m := bs[i := bs[i].(free := true)], Live(bs) - {Payload(bs[i])};
    forall j | 0 <= j < |r| && !r[j].free ensures Payload(r[j]) in m && m[Payload(r[j])] == r[j].size {
      LiveIff(bs, Payload(r[j]));
      assert bs[j] == r[j];
    }
    forall p | p in m ensures exists j :: 0 <= j < |r| && !r[j].free && Payload(r[j]) == p {
      LiveIff(bs, p);
      var j :| 0 <= j < |bs| && !bs[j].free && Payload(bs[j]) == p;
      assert r[j] == bs[j];
    }
    LiveEq(r, m);
  }

  /** Releasing a block removes exactly its payload from the live ones. */
  lemma ReleaseLive(bs: seq<Meta>, start: nat, brk: nat, i: nat)
    requires bs != [] && HeapInv(bs, start, brk) && i < |bs|
    ensures Live(Release(bs, i)) == Live(bs) - {Payload(bs[i])}
  {
    hide Live, Tiles, Aligned, Merged;
    var b1, b2 := bs[i := bs[i].(free := true)], Forward(bs, i);
    TilesDistinct(bs, start, brk);
    MarkFreeLive(bs, i);
    MarkFreeTiles(bs, start, brk, i);
    ForwardMerged(bs, i);
    if i + 1 < |bs| && bs[i + 1].free {
      SwallowTiles(b1, start, brk, i);
      SwallowLive(b1, start, brk, i);
    }
    if i > 0 && b2[i - 1].free {
      SwallowLive(b2, start, brk, i - 1);
    }
  }

  // ---- contraction ---------------------------------------------------------

  // New end of the heap for a last block whose payload starts at p: two pages from the page p lies in.
  function ContractedEnd(p: nat): nat {
    p - p % PAGE + 2 * PAGE
  }

  /** Contraction never moves the break up, moves it by whole pages, and leaves between one and two pages of tail. */
  lemma ContractedEndRange(p: nat, size: nat, brk: nat)
    requires p + size == brk && brk % PAGE == 0 && size > PAGE && p % 4 == 0
    ensures p + PAGE < ContractedEnd(p) <= p + 2 * PAGE
    ensures ContractedEnd(p) <= brk && (brk - ContractedEnd(p)) % PAGE == 0
    ensures ContractedEnd(p) % PAGE == 0 && (ContractedEnd(p) - p) % 4 == 0
  {
    var q, e, t := p / PAGE, brk / PAGE, p % PAGE;
    assert p == q * PAGE + t && brk == e * PAGE;
    assert ContractedEnd(p) == (q + 2) * PAGE;
    assert q + 2 <= e;
    WholePages(q + 2);
    WholePages(e - q - 2);
    assert brk - ContractedEnd(p) == (e - q - 2) * PAGE;
    assert ContractedEnd(p) - p == 2 * PAGE - t && t % 4 == 0;
  }

  lemma WholePages(k: nat)
    ensures k * PAGE % PAGE == 0
  {
  }

  lemma ContractInv(bs: seq<Meta>, start: nat, brk: nat, z: nat, brk': nat)
    requires bs != [] && HeapInv(bs, start, brk) && z % 4 == 0 && brk' % PAGE == 0
    requires Payload(bs[|bs| - 1]) + z == brk'
    ensures HeapInv(bs[|bs| - 1 := bs[|bs| - 1].(size := z)], start, brk')
    ensures Live(bs[|bs| - 1 := bs[|bs| - 1].(size := z)]) == Live(bs)
  {
    var k := |bs| - 1;
    var r := bs[k := bs[k].(size := z)];
    assert r[..k] == bs[..k];
    assert Tiles(r, start, brk') by {
      forall i, j | 0 <= i < j < |r| && j == i + 1 ensures End(r[i]) == r[j].addr {
        assert End(bs[i]) == bs[i + 1].addr;
      }
    }
  }

  // ---- memory --------------------------------------------------------------

  function CopyByte(m: nat -> byte, dst: nat, src: nat, len: nat, a: nat): byte {
    if dst <= a < dst + len then m(src + (a - dst)) else m(a)
  }

  function FreshByte(m: nat -> byte, junk: nat -> byte, end: nat, a: nat): byte {
    if end <= a < end + PAGE then junk(a) else m(a)
  }

  // Nothing below b changed.
  ghost predicate KeptBelow(m: nat -> byte, m': nat -> byte, b: nat) {
    forall x: nat {:trigger m'(x)} :: x < b ==> m'(x) == m(x)
  }

  // len bytes were copied from src to dst, and nothing else changed.
  ghost predicate Copied(m: nat -> byte, m': nat -> byte, dst: nat, src: nat, len: nat) {
    && (forall x: nat {:trigger m'(x)} :: dst <= x < dst + len ==> m'(x) == m(src + (x - dst)))
    && (forall x: nat {:trigger m'(x)} :: x < dst || dst + len <= x ==> m'(x) == m(x))
  }

  // The payload at n starts with the first bytes of what was the payload at ptr.
  ghost predicate Moved(m: nat -> byte, m': nat -> byte, n: nat, ptr: nat, len: nat) {
    forall x: nat {:trigger m'(x)} :: n <= x < n + len ==> m'(x) == m(ptr + (x - n))
  }

  // The live payloads other than the one at `but` keep their contents.
  ghost predicate LiveKept(m: nat -> byte, m': nat -> byte, live: map<nat, nat>, but: nat) {
    forall p, x: nat {:trigger live[p], m'(x)} :: p in live && p != but && p <= x < p + live[p] ==> m'(x) == m(x)
  }

  // Pages that _sbrk walks for an increment of n bytes.
  function Pages(n: nat): (k: nat)
    ensures n <= k * PAGE < n + PAGE
  {
    if n % PAGE != 0 then n / PAGE + 1 else n / PAGE
  }

  class Heap {
    const start: nat
    const limit: nat
    var brk: nat
    var blocks: seq<Meta>
    // Memory contents; pages that sbrk maps come with whatever the frame held.
    var mem: nat -> byte

    ghost predicate Valid()
      reads this
    {
      HeapInv(blocks, start, brk) && PAGE <= start <= brk
    }

    constructor (start: nat, limit: nat, mem: nat -> byte)
      requires start % PAGE == 0 && PAGE <= start
      ensures Valid() && blocks == [] && brk == start == this.start && this.limit == limit
    {
      this.start, this.limit, this.brk := start, limit, start;
      this.blocks := [];
      this.mem := mem;
    }

    /** _sbrk: moves the break page by page. It fails with the break already moved: up to the first page end at or past
        the limit, or down to the first one below the start. */
    method Sbrk(increment: int, junk: nat -> byte) returns (ret: int)
      requires PAGE <= start <= brk
      modifies this`brk, this`mem
      ensures increment == 0 ==> ret == old(brk) == brk
      ensures increment > 0 && old(brk) + Pages(increment) * PAGE < limit ==>
                ret == old(brk) && brk == old(brk) + Pages(increment) * PAGE
      ensures increment > 0 && old(brk) + Pages(increment) * PAGE >= limit ==>
                && ret == -1 && limit <= brk && old(brk) < brk && (brk - old(brk)) % PAGE == 0
                && (brk == old(brk) + PAGE || brk - PAGE < limit)
      ensures increment < 0 && Pages(-increment) * PAGE <= old(brk) - start ==>
                ret == old(brk) && brk == old(brk) - Pages(-increment) * PAGE
      ensures increment < 0 && Pages(-increment) * PAGE > old(brk) - start ==>
                ret == -1 && start - PAGE <= brk < start && (old(brk) - brk) % PAGE == 0
      ensures KeptBelow(old(mem), mem, old(brk))
    {
      ret := brk;
      if increment > 0 {
        ret := Extend(increment, junk);
      } else if increment < 0 {
        ret := Shrink(-increment);
      }
    }

    method Extend(increment: nat, junk: nat -> byte) returns (ret: int)
      requires increment > 0
      modifies this`brk, this`mem
      ensures old(brk) + Pages(increment) * PAGE < limit ==> ret == old(brk) && brk == old(brk) + Pages(increment) * PAGE
      ensures old(brk) + Pages(increment) * PAGE >= limit ==>
                && ret == -1 && limit <= brk && old(brk) < brk && (brk - old(brk)) % PAGE == 0
                && (brk == old(brk) + PAGE || brk - PAGE < limit)
      ensures KeptBelow(old(mem), mem, old(brk))
    {
      ret := brk;
      var iterations := increment / PAGE;
      if increment % PAGE != 0 {
        iterations := iterations + 1;
      }
      var i := 0;
      while i < iterations
        invariant 0 <= i <= iterations == Pages(increment)
        invariant brk == old(brk) + i * PAGE && ret == old(brk) && (i > 0 ==> brk < limit)
        invariant KeptBelow(old(mem), mem, old(brk))
      {
        var end, was := brk, mem;
        mem := (a: nat) => FreshByte(was, junk, end, a);
        brk := brk + PAGE;
        if brk >= limit {
          return -1;
        }
        i := i + 1;
      }
    }

    method Shrink(dec: nat) returns (ret: int)
      requires PAGE <= start <= brk
      modifies this`brk
      ensures Pages(dec) * PAGE <= old(brk) - start ==> ret == old(brk) && brk == old(brk) - Pages(dec) * PAGE
      ensures Pages(dec) * PAGE > old(brk) - start ==> ret == -1 && start - PAGE <= brk < start && (old(brk) - brk) % PAGE == 0
    {
      ret := brk;
      var iterations := dec / PAGE;
      if dec % PAGE != 0 {
        iterations := iterations + 1;
      }
      var i := 0;
      while i < iterations
        invariant 0 <= i <= iterations == Pages(dec)
        invariant brk == old(brk) - i * PAGE >= start && ret == old(brk)
      {
        brk := brk - PAGE;
        if brk < start {
          return -1;
        }
        i := i + 1;
      }
    }

    method InitFirstBlock(junk: nat -> byte) returns (ok: bool)
      requires Valid() && blocks == [] && brk == start
      modifies this
      ensures ok <==> start + PAGE < limit
      ensures brk == start + PAGE && KeptBelow(old(mem), mem, start)
      ensures if ok then Valid() && blocks == Ready([], start) else blocks == []
    {
      var s := Sbrk(PAGE, junk);
      if s == -1 {
        return false;
      }
      blocks := [Meta(s, PAGE - META, true)];
      ok := true;
    }

    // The search loop of malloc: the first free block that is large enough; the last block is grown until it is.
    method Search(need: nat, junk: nat -> byte) returns (p: nat)
      requires Valid() && blocks != []
      modifies this
      ensures p == FirstFit(old(blocks), need) && old(blocks)[p].free
      ensures blocks == Grow(old(blocks), p, need)
      ensures brk == old(brk) + GrownSize(old(blocks)[p].size, need) - old(blocks)[p].size
      ensures KeptBelow(old(mem), mem, old(brk))
    {
      hide HeapInv, GrownSize, FirstFit;
      ghost var bs := blocks;
      p := 0;
      LastFree(bs, start, brk);
      while p < |blocks|
        invariant 0 <= p < |bs| && PAGE <= start <= brk
        invariant |blocks| == |bs| && blocks == bs[p := bs[p].(size := blocks[p].size)]
        invariant blocks[p].size >= bs[p].size && (blocks[p].size - bs[p].size) % PAGE == 0
        invariant blocks[p].size > bs[p].size ==> p == |bs| - 1 && bs[p].size < need && blocks[p].size < need + PAGE
        invariant brk == old(brk) + blocks[p].size - bs[p].size
        invariant forall j :: 0 <= j < p ==> !Fits(bs[j], need)
        invariant KeptBelow(old(mem), mem, old(brk))
        decreases |bs| - p, if blocks[p].size < need then need - blocks[p].size else 0
      {
        if !blocks[p].free {
          p := p + 1;
        } else if p == |blocks| - 1 && blocks[p].size < need {
          assert p == FirstFit(bs, need);
          GrownNext(bs[p].size, blocks[p].size, need);
          var s := Sbrk(PAGE, junk);
          blocks := blocks[p := blocks[p].(size := blocks[p].size + PAGE)];
        } else if blocks[p].size >= need {
          GrownIs(bs[p].size, blocks[p].size, need);
          return;
        } else {
          p := p + 1;
        }
      }
    }

    /** First-fit allocation. It terminates with a block whatever sbrk reports, except that it reads through NULL (`!ok`)
        when the first page already reaches the limit. The returned payload holds the size asked for, is new, and every
        live payload stays live, of the same size and with the same contents. */
    method Malloc(size: nat, junk: nat -> byte) returns (ok: bool, ptr: nat)
      requires Valid() && Addressable(blocks, start, brk, size)
      modifies this
      ensures ok <==> old(blocks) != [] || start + PAGE < limit
      ensures !ok ==> blocks == [] && brk == start + PAGE
      ensures ok ==> Valid() && blocks == Allocated(old(blocks), start, Align(size))
      ensures ok ==> brk == BreakAfter(old(blocks), start, old(brk), Align(size))
      ensures ok ==> ptr !in Live(old(blocks)) && ptr % 4 == 0 && ptr > 0 && Live(blocks) == Live(old(blocks))[ptr := Align(size)]
      ensures ok ==> forall k: nat :: IsFirstFit(old(blocks), k, Align(size) + 20) ==>
                                        ptr == old(blocks)[k].addr + 20 && brk == old(brk)
      ensures KeptBelow(old(mem), mem, old(brk))
    {
      hide Live, HeapInv, GrownSize, KeptBelow, Align, Split, FirstFit;
      var a := Align(size);
      EmptyHeap(blocks, start, brk);
      KeptRefl(mem, brk);
      ok := true;
      if blocks == [] {
        ok := InitFirstBlock(junk);
        if !ok {
          return false, 0;
        }
        EmptyLive(old(blocks), blocks);
      }
      ghost var bs, b0 := blocks, brk;
      LastFree(bs, start, brk);
      ghost var m1 := mem;
      var p := Search(a + META, junk);
      KeptTrans(old(mem), m1, mem, old(brk), b0);
      SplitInv(bs, start, b0, p, a);
      SplitLive(bs, start, b0, p, a);
      BlockBounds(bs, start, b0, p);
      ghost var need := a + 20;
      forall k: nat | IsFirstFit(old(blocks), k, need) ensures k == p && brk == old(brk) {
        FirstFitIs(bs, k, need);
      }
      ptr := blocks[p].addr + META;
      SplitBlock(p, a);
    }

    // Cuts block p: a used block of a bytes, then a free block with what is left.
    method SplitBlock(p: nat, a: nat)
      requires p < |blocks| && blocks[p].size >= a + META
      modifies this`blocks
      ensures blocks == Split(old(blocks), p, a)
    {
      var b := blocks[p];
      var nextSize := b.size - a - META;
      blocks := blocks[..p] + [Meta(b.addr, a, false), Meta(b.addr + META + a, nextSize, true)] + blocks[p + 1..];
    }

    /** Contraction: keeps every live payload, never moves the break up, and leaves at most two pages of tail. */
    method HeapContract()
      requires Valid() && blocks != []
      modifies this`blocks, this`brk, this`mem
      ensures Valid() && blocks != [] && brk <= old(brk) && (old(brk) - brk) % PAGE == 0
      ensures Live(blocks) == Live(old(blocks)) && |blocks| == |old(blocks)|
      ensures blocks[|blocks| - 1].size <= 2 * PAGE
      ensures old(blocks)[|old(blocks)| - 1].size <= PAGE ==> blocks == old(blocks) && brk == old(brk)
      ensures old(blocks)[|old(blocks)| - 1].size > PAGE ==> blocks[|blocks| - 1].size > PAGE
      ensures KeptBelow(old(mem), mem, brk)
    {
      hide Live, HeapInv, ContractedEnd, KeptBelow;
      KeptRefl(mem, brk);
      LastFree(blocks, start, brk);
      ghost var bs, b0 := blocks, brk;
      var p := 0;
      while p < |blocks| - 1
        invariant 0 <= p < |blocks|
      {
        p := p + 1;
      }
      if blocks[p].size > PAGE {
        var endAddr := brk;
        BrkAligned(blocks, start, brk);
        var first := blocks[p].addr + META;
        assert first + blocks[p].size == endAddr;
        BlockBounds(blocks, start, brk, p);
        ContractedEndRange(first, blocks[p].size, brk);
        var newEnd := ContractedEnd(first);
        blocks := blocks[p := blocks[p].(size := newEnd - first)];
        PagesExact(endAddr - newEnd);
        var s := Sbrk(newEnd - endAddr, mem);
        KeptLess(old(mem), mem, b0, brk);
        ContractInv(bs, start, b0, newEnd - first, newEnd);
      }
    }

    /** free: releases the block whose payload starts at ptr, merges it with free neighbours and contracts the heap.
        A pointer that is no payload aborts, except that the walk runs off the list when the last block is empty. */
    method Free(ptr: nat) returns (r: Freeing)
      requires Valid()
      modifies this
      ensures ptr == 0 <==> r.Ignored?
      ensures r.Freed? <==> ptr != 0 && exists i :: 0 <= i < |old(blocks)| && Payload(old(blocks)[i]) == ptr
      ensures r.Freed? ==> Valid() && Live(blocks) == Live(old(blocks)) - {ptr} && brk <= old(brk)
      ensures r.Freed? ==> blocks != [] && blocks[|blocks| - 1].size <= 8192
      ensures r.Faulted? <==>
                && ptr != 0 && (forall i :: 0 <= i < |old(blocks)| ==> Payload(old(blocks)[i]) != ptr)
                && (old(blocks) == [] || old(blocks)[|old(blocks)| - 1].size == 0)
      ensures !r.Freed? ==> blocks == old(blocks) && brk == old(brk)
      ensures KeptBelow(old(mem), mem, brk)
    {
      hide Live, HeapInv, Release, KeptBelow;
      KeptRefl(mem, brk);
      if ptr == 0 {
        return Ignored;
      }
      if blocks == [] {
        return Faulted;
      }
      ghost var bs := blocks;
      LastFree(bs, start, brk);
      var p := 0;
      while true
        invariant 0 <= p < |blocks| && blocks == bs && brk == old(brk) && mem == old(mem)
        invariant forall j :: 0 <= j < p ==> Payload(bs[j]) != ptr
        decreases |bs| - p
      {
        if blocks[p].addr + META == ptr {
          Unlink(p);
          ReleaseInv(bs, start, brk, p);
          ReleaseLive(bs, start, brk, p);
          HeapContract();
          return Freed;
        }
        if p == |blocks| - 1 {
          if blocks[p].free && blocks[p].size > 0 {
            return Aborted;
          }
          return Faulted;
        }
        p := p + 1;
      }
    }

    // Marks block p free and merges it with its neighbours in the list.
    method Unlink(p: nat)
      requires p < |blocks|
      modifies this`blocks
      ensures blocks == Release(old(blocks), p)
    {
      ghost var bs := blocks;
      blocks := blocks[p := blocks[p].(free := true)];
      if p + 1 < |blocks| && blocks[p + 1].free {
        var size := blocks[p].size + blocks[p + 1].size + META;
        blocks := blocks[..p] + [blocks[p].(size := size)] + blocks[p + 2..];
      }
      assert blocks == Forward(bs, p);
      hide Forward;
      if p > 0 && blocks[p - 1].free {
        var size := blocks[p - 1].size + blocks[p].size + META;
        blocks := blocks[..p - 1] + [blocks[p - 1].(size := size)] + blocks[p + 1..];
        assert blocks == Swallow(Forward(bs, p), p - 1);
      }
    }

    /** realloc of a live payload (or of NULL): the new payload starts with the common prefix of the old one, the old
        one is released, and every other live payload keeps its size and contents. */
    method Realloc(ptr: nat, size: nat, junk: nat -> byte) returns (ok: bool, n: nat)
      requires Valid() && Addressable(blocks, start, brk, size)
      requires ptr == 0 || (ptr in Live(blocks) && size > 0)
      modifies this
      ensures ok <==> old(blocks) != [] || start + PAGE < limit
      ensures ok ==> Valid() && n !in Live(old(blocks)) && n % 4 == 0
      ensures ok ==> Live(blocks) == (Live(old(blocks)) - {ptr})[n := Align(size)]
      ensures ok && ptr != 0 ==> Moved(old(mem), mem, n, ptr, Min(size, Live(old(blocks))[ptr]))
      ensures LiveKept(old(mem), mem, Live(old(blocks)), ptr)
    {
      hide Live, HeapInv, Align, KeptBelow, Copied, Moved, LiveKept, Addressable;
      LiveBelow(blocks, start, brk);
      NullNotLive(blocks, start, brk);
      if ptr == 0 {
        ok, n := Malloc(size, junk);
        assert Live(old(blocks)) - {ptr} == Live(old(blocks));
        KeptLive(old(mem), mem, Live(old(blocks)), old(brk), ptr);
        return;
      }
      SomeLive(blocks, ptr);
      ok, n := Malloc(size, junk);
      ghost var m1 := mem;
      var oldSize := SizeOf(ptr);
      var len := if size < oldSize then size else oldSize;
      Memcpy(n, ptr, len);
      ghost var m2 := mem;
      Apart(old(blocks), blocks, start, brk, n, Align(size));
      LiveIffAny(blocks, start, brk, ptr);
      var r := Free(ptr);
      LiveBelow(blocks, start, brk);
      assert n in Live(blocks);
      forall p | p in Live(old(blocks)) && p != ptr ensures p + Live(old(blocks))[p] <= brk {
        assert p in Live(blocks);
      }
      MovedBytes(old(mem), m1, m2, mem, Live(old(blocks)), old(brk), brk, ptr, n, size, Align(size), len);
    }

    method Memcpy(dst: nat, src: nat, len: nat)
      modifies this`mem
      ensures Copied(old(mem), mem, dst, src, len)
    {
      var m := mem;
      mem := (a: nat) => CopyByte(m, dst, src, len, a);
    }

    // p->size of the header in front of a live payload.
    method SizeOf(ptr: nat) returns (z: nat)
      requires Valid() && ptr in Live(blocks)
      ensures z == Live(blocks)[ptr]
    {
      hide Live, HeapInv;
      LiveIffAny(blocks, start, brk, ptr);
      var p := 0;
      while p < |blocks| && blocks[p].addr + META != ptr
        invariant 0 <= p <= |blocks|
        invariant forall j :: 0 <= j < p ==> Payload(blocks[j]) != ptr
      {
        p := p + 1;
      }
      UniqueAt(blocks, start, brk, ptr, p);
      z := blocks[p].size;
    }
  }

  lemma SomeLive(bs: seq<Meta>, p: nat)
    requires p in Live(bs)
    ensures bs != []
  {
  }

  lemma LiveIffAny(bs: seq<Meta>, start: nat, brk: nat, p: nat)
    requires HeapInv(bs, start, brk) && p in Live(bs)
    ensures exists i :: 0 <= i < |bs| && !bs[i].free && Payload(bs[i]) == p
  {
    TilesDistinct(bs, start, brk);
    LiveIff(bs, p);
  }

  // Every payload that was live lies apart from the new one.
  lemma Apart(was: seq<Meta>, bs: seq<Meta>, start: nat, brk: nat, n: nat, a: nat)
    requires HeapInv(bs, start, brk) && n !in Live(was) && Live(bs) == Live(was)[n := a]
    ensures n + a <= brk
    ensures forall p :: p in Live(was) ==> p + Live(was)[p] <= n || n + a <= p
  {
    hide Live, HeapInv;
    LiveDisjoint(bs, start, brk, n, n);
    forall p | p in Live(was) ensures p + Live(was)[p] <= n || n + a <= p {
      LiveDisjoint(bs, start, brk, p, n);
    }
  }

  lemma KeptTrans(m0: nat -> byte, m1: nat -> byte, m2: nat -> byte, b: nat, c: nat)
    requires KeptBelow(m0, m1, b) && KeptBelow(m1, m2, c) && b <= c
    ensures KeptBelow(m0, m2, b)
  {
  }

  lemma KeptLess(m: nat -> byte, m': nat -> byte, b: nat, c: nat)
    requires KeptBelow(m, m', b) && c <= b
    ensures KeptBelow(m, m', c)
  {
  }

  lemma KeptRefl(m: nat -> byte, b: nat)
    ensures KeptBelow(m, m, b)
  {
  }

  lemma KeptLive(m: nat -> byte, m': nat -> byte, live: map<nat, nat>, b: nat, but: nat)
    requires KeptBelow(m, m', b) && forall p :: p in live ==> p + live[p] <= b
    ensures LiveKept(m, m', live, but)
  {
  }

  // The memory after malloc (m1), memcpy (m2) and free (m3).
  lemma MovedBytes(m0: nat -> byte, m1: nat -> byte, m2: nat -> byte, m3: nat -> byte, live: map<nat, nat>,
                   b0: nat, b3: nat, ptr: nat, n: nat, size: nat, a: nat, len: nat)
    requires ptr in live && n !in live && size <= a && len == Min(size, live[ptr])
    requires forall p :: p in live ==> p + live[p] <= b0 && (p + live[p] <= n || n + a <= p)
    requires forall p :: p in live && p != ptr ==> p + live[p] <= b3
    requires n + a <= b3
    requires KeptBelow(m0, m1, b0) && Copied(m1, m2, n, ptr, len) && KeptBelow(m2, m3, b3)
    ensures Moved(m0, m3, n, ptr, len) && LiveKept(m0, m3, live, ptr)
  {
    forall p, x: nat | p in live && p != ptr && p <= x < p + live[p] ensures m3(x) == m0(x) {
      assert p + live[p] <= n || n + a <= p;
      assert m2(x) == m1(x);
    }
  }

  lemma UniqueAt(bs: seq<Meta>, start: nat, brk: nat, p: nat, i: nat)
    requires HeapInv(bs, start, brk) && p in Live(bs) && i < |bs| && Payload(bs[i]) == p
    ensures Live(bs)[p] == bs[i].size
  {
    TilesDistinct(bs, start, brk);
    LiveIff(bs, p);
  }

  lemma NullNotLive(bs: seq<Meta>, start: nat, brk: nat)
    requires HeapInv(bs, start, brk)
    ensures 0 !in Live(bs)
  {
    if 0 in Live(bs) {
      LiveDisjoint(bs, start, brk, 0, 0);
    }
  }

  lemma BrkAligned(bs: seq<Meta>, start: nat, brk: nat)
    requires HeapInv(bs, start, brk)
    ensures start % PAGE == 0 && brk % PAGE == 0
  {
  }

  lemma PagesExact(n: nat)
    requires n % PAGE == 0
    ensures Pages(n) * PAGE == n
  {
  }

  lemma EmptyHeap(bs: seq<Meta>, start: nat, brk: nat)
    requires HeapInv(bs, start, brk)
    ensures bs == [] ==> brk == start
  {
  }

  lemma EmptyLive(bs: seq<Meta>, cs: seq<Meta>)
    requires bs == [] && |cs| == 1 && cs[0].free
    ensures Live(bs) == map[] && Live(cs) == map[]
  {
  }

  lemma LiveBelow(bs: seq<Meta>, start: nat, brk: nat)
    requires HeapInv(bs, start, brk)
    ensures forall p :: p in Live(bs) ==> p + Live(bs)[p] <= brk
  {
    hide Live, Tiles, Merged, Aligned;
    forall p | p in Live(bs) ensures p + Live(bs)[p] <= brk {
      LiveDisjoint(bs, start, brk, p, p);
    }
  }

  lemma LastFree(bs: seq<Meta>, start: nat, brk: nat)
    requires bs != [] && HeapInv(bs, start, brk)
    ensures bs[|bs| - 1].free && End(bs[|bs| - 1]) == brk
  {
  }

  lemma BlockBounds(bs: seq<Meta>, start: nat, brk: nat, p: nat)
    requires bs != [] && HeapInv(bs, start, brk) && p < |bs|
    ensures start <= bs[p].addr && End(bs[p]) <= brk && Payload(bs[p]) % 4 == 0
  {
    Order(bs, start, brk, p, p);
    PageAligned(start);
    AddrAligned(bs, start, brk, p);
  }

  lemma PageAligned(x: nat)
    requires x % PAGE == 0
    ensures x % 4 == 0
  {
    assert x == 4 * (1024 * (x / PAGE));
  }

  // A block that is still too small has at least a page to grow.
  lemma GrownNext(size: nat, z: nat, need: nat)
    requires size <= z < need && (z - size) % PAGE == 0
    ensures z + PAGE <= GrownSize(size, need)
  {
    hide GrownSize;
    var g := GrownSize(size, need);
    assert (g - z) % PAGE == 0;
  }

  lemma GrownIs(size: nat, z: nat, need: nat)
    requires z >= size && z >= need && (z - size) % PAGE == 0 && (z > size ==> z < need + PAGE && size < need)
    ensures z == GrownSize(size, need)
  {
  }
}
