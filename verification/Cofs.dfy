/**
The cofs block layer: bitmap allocation, the file-block map with its direct,
single- and double-indirect ranges, read, write and truncate.

A disk block is read and written through the buffer cache. HdQueue shows that the
cache behaves as the plain block array `disk` used here as long as nobody asks for a
block that he holds himself, and CofsLayout.HeldApart shows that cofs never does:
every other pair of blocks is got and put one after the other.
*/
module Cofs {
  import opened Block
  import opened CofsLayout

  // The limit that cofs_write tests: MAX_FILE_SIZE * BLOCK_SIZE with MAX_FILE_SIZE
  // an unparenthesised sum, so only its last term is multiplied.
  const WRITE_LIMIT := NUM_DIRECT + NUM_SIND + NUM_DIND * BLOCK_SIZE

  datatype Panic = NoSpace | AlreadyFree | OutOfRange

  datatype Result<T> = Ok(value: T) | Panicked(why: Panic)

  // Lowest clear bit of a bitmap block, BITS if none: skips full words, then looks bit by bit.
  method FirstClear(b: Block) returns (idx: nat)
    ensures idx <= BITS
    ensures idx < BITS ==> !Bit(b, idx)
    ensures forall k: nat :: k < idx ==> Bit(b, k)
  {
    var scan := 0;
    while scan < WORDS
      invariant 0 <= scan <= WORDS
      invariant forall k: nat :: k < 32 * scan ==> Bit(b, k)
    {
      FullWord(b, scan);
      if Word(b, scan) != 0xFFFF_FFFF {
        break;
      }
      scan := scan + 1;
    }
    if scan != WORDS {
      idx := scan * 32;
      while idx < (scan + 1) * 32
        invariant scan * 32 <= idx <= (scan + 1) * 32
        invariant forall k: nat :: k < idx ==> Bit(b, k)
      {
        if !Bit(b, idx) {
          return;
        }
        idx := idx + 1;
      }
    }
    idx := BITS;
  }

  // Bits below idx of the bitmap block for `block` speak of the blocks block .. block + idx.
  lemma UsedBelow(g: Geometry, disk: Disk, block: nat, bm: Block, idx: nat)
    requires ValidGeometry(g) && |disk| == Capacity(g)
    requires block % BITS == 0 && block < Capacity(g) && idx <= BITS
    requires bm == disk[g.bitmapStart + block / BITS]
    requires forall k: nat :: k < idx ==> Bit(bm, k)
    ensures block + BITS <= Capacity(g)
    ensures forall c: nat :: block <= c < block + idx ==> Used(g, disk, c)
    ensures idx < BITS ==> Used(g, disk, block + idx) == Bit(bm, idx)
    ensures idx < BITS ==> (block + idx) / BITS == block / BITS && (block + idx) % BITS == idx
  {
    forall c: nat | block <= c < block + idx ensures Used(g, disk, c) {
      assert c / BITS == block / BITS && c % BITS == c - block;
    }
  }

  // No bit that block_alloc looks at is clear.
  ghost predicate Full(g: Geometry, disk: Disk) {
    ValidGeometry(g) && |disk| == Capacity(g) && forall c: nat :: c < Capacity(g) ==> Used(g, disk, c)
  }

  // What mapping a file block has done down to pointer s: it is filled, or the disk is full and it is not; if it was
  // filled before, nothing changed.
  ghost predicate Mapped(g: Geometry, d0: Disk, n0: map<nat, Inode>, o0: map<nat, Loc>,
                         d1: Disk, n1: map<nat, Inode>, o1: map<nat, Loc>, ino: nat, s: Slot, f: nat, r: Result<nat>)
  {
    && ino in n0 && SameBytes(d0, n0, d1, n1) && Grown(d0, n0, d1, n1, ino, f) && TakenLow(g, o0, o1)
    && (r.Ok? ==> r.value == Ptr(d1, n1[ino], s) != 0)
    && (r.Panicked? ==> r.why == NoSpace && Full(g, d1) && Ptr(d1, n1[ino], s) == 0)
    && (Ptr(d0, n0[ino], s) != 0 ==> r.Ok? && d1 == d0 && n1 == n0 && o1 == o0)
  }

  // The level above: filled, or s is no more filled than it.
  lemma AboveSet(g: Geometry, d0: Disk, n0: map<nat, Inode>, o0: map<nat, Loc>,
                 d1: Disk, n1: map<nat, Inode>, o1: map<nat, Loc>, ino: nat, s: Slot, f: nat, above: Result<nat>)
    requires ValidSlot(s) && !s.Addr? && Mapped(g, d0, n0, o0, d1, n1, o1, ino, Parent(s), f, above)
    ensures above.Ok? ==> Holder(d1, n1[ino], s) != 0
    ensures above.Panicked? ==> Mapped(g, d0, n0, o0, d1, n1, o1, ino, s, f, above)
  {
    hide Ptr, SameFile, Grown, TakenLow, Full;
    PtrChain(d0, n0[ino], s);
    PtrChain(d1, n1[ino], s);
  }

  lemma MappedBelow(g: Geometry, d0: Disk, n0: map<nat, Inode>, o0: map<nat, Loc>, d1: Disk, n1: map<nat, Inode>,
                    o1: map<nat, Loc>, d2: Disk, n2: map<nat, Inode>, o2: map<nat, Loc>,
                    ino: nat, s: Slot, f: nat, above: Result<nat>, r: Result<nat>)
    requires ValidSlot(s) && !s.Addr? && Mapped(g, d0, n0, o0, d1, n1, o1, ino, Parent(s), f, above)
    requires Mapped(g, d1, n1, o1, d2, n2, o2, ino, s, f, r)
    ensures Mapped(g, d0, n0, o0, d2, n2, o2, ino, s, f, r)
  {
    hide Ptr, Grown, TakenLow, Full, SameFile;
    PtrChain(d0, n0[ino], s);
    SameBytesTrans(d0, n0, d1, n1, d2, n2);
    GrownTrans(d0, n0, d1, n1, d2, n2, ino, f);
    TakenLowTrans(g, o0, o1, o2);
  }

  lemma AllServed(disk: Disk, n: Inode, f: nat)
    requires f < MAX_BLOCKS && Ptr(disk, n, DataSlot(f)) != 0
    ensures forall s :: ValidSlot(s) && Serves(s, f) ==> Ptr(disk, n, s) != 0
  {
    PtrChain(disk, n, DataSlot(f));
    hide Ptr;
    forall s | ValidSlot(s) && Serves(s, f) ensures Ptr(disk, n, s) != 0 {
      ServedBy(s, f);
    }
  }

  // ---- blocks past the device -----------------------------------------------

  // Every block in use lies on the device.
  ghost predicate OnDevice(g: Geometry, owner: map<nat, Loc>) {
    forall b :: b in owner ==> b < g.size
  }

  // Blocks were only taken, and one past the device only when those on it were all in use.
  ghost predicate TakenLow(g: Geometry, owner: map<nat, Loc>, owner': map<nat, Loc>) {
    && owner.Keys <= owner'.Keys
    && (forall b :: b in owner' && b !in owner && b >= g.size ==> |owner'| > g.size - g.meta)
  }

  lemma TakenLowRefl(g: Geometry, owner: map<nat, Loc>)
    ensures TakenLow(g, owner, owner)
  {
  }

  lemma TakenLowTrans(g: Geometry, o0: map<nat, Loc>, o1: map<nat, Loc>, o2: map<nat, Loc>)
    requires TakenLow(g, o0, o1) && TakenLow(g, o1, o2)
    ensures TakenLow(g, o0, o2)
  {
    KeysCount(o1, o2);
  }

  lemma KeysCount(o1: map<nat, Loc>, o2: map<nat, Loc>)
    requires o1.Keys <= o2.Keys
    ensures |o1| <= |o2|
  {
    assert o2.Keys == o1.Keys + (o2.Keys - o1.Keys);
    assert |o1| == |o1.Keys| && |o2| == |o2.Keys|;
  }

  /** Lowest first: a block past the device is taken only when all data blocks on it are in use. */
  lemma LowestTaken(g: Geometry, disk: Disk, nodes: map<nat, Inode>, owner: map<nat, Loc>, b: nat, at: Loc)
    requires Inv(g, disk, nodes, owner) && b !in owner && b < Capacity(g)
    requires b >= g.size ==> forall c: nat :: c < g.size ==> Used(g, disk, c)
    ensures TakenLow(g, owner, owner[b := at])
  {
    if b >= g.size {
      AllOwned(g, disk, nodes, owner);
      assert g.meta <= g.size;
      hide Inv, Used, Range;
      RangeCount(g.meta, g.size);
      SetCount(Range(g.meta, g.size), owner.Keys);
      OneMore(owner, b, at);
    }
  }

  lemma OneMore(owner: map<nat, Loc>, b: nat, at: Loc)
    requires b !in owner
    ensures |owner[b := at]| == |owner.Keys| + 1
  {
    assert owner[b := at].Keys == owner.Keys + {b};
    assert |owner[b := at]| == |owner[b := at].Keys|;
  }

  lemma AllOwned(g: Geometry, disk: Disk, nodes: map<nat, Inode>, owner: map<nat, Loc>)
    requires Inv(g, disk, nodes, owner)
    ensures forall c: nat :: g.meta <= c < g.size && Used(g, disk, c) ==> c in owner
  {
    hide Used, OwnersPoint, PointersOwn;
  }

  ghost function Range(lo: nat, hi: nat): set<nat> {
    if lo >= hi then {} else Range(lo, hi - 1) + {hi - 1}
  }

  lemma {:induction false} RangeCount(lo: nat, hi: nat)
    requires lo <= hi
    ensures |Range(lo, hi)| == hi - lo
    ensures forall b :: b in Range(lo, hi) <==> lo <= b < hi
    decreases hi
  {
    if lo < hi {
      RangeCount(lo, hi - 1);
    }
  }

  lemma SetCount(a: set<nat>, b: set<nat>)
    requires a <= b
    ensures |a| <= |b|
  {
    assert b == a + (b - a);
  }

  class FileSystem {
    const g: Geometry
    var disk: Disk
    var nodes: map<nat, Inode>
    ghost var owner: map<nat, Loc>

    ghost predicate Valid()
      reads this
    {
      Inv(g, disk, nodes, owner)
    }

    ghost predicate Unchanged(disk0: Disk, nodes0: map<nat, Inode>, owner0: map<nat, Loc>)
      reads this
    {
      disk == disk0 && nodes == nodes0 && owner == owner0
    }

    constructor (g: Geometry, disk: Disk, nodes: map<nat, Inode>, ghost owner: map<nat, Loc>)
      requires Inv(g, disk, nodes, owner)
      ensures Valid() && this.g == g && this.disk == disk && this.nodes == nodes && this.owner == owner
    {
      this.g := g;
      this.disk := disk;
      this.nodes := nodes;
      this.owner := owner;
    }

    /** Takes the lowest block whose bit is clear. The scan runs to the end of the last bitmap block,
        so the block it takes may lie at or past superb.size: exactly when no block below it is free. */
    method BlockAlloc() returns (r: Result<nat>)
      requires Shape(g, disk, nodes)
      modifies this`disk
      ensures r.Ok? ==>
                && g.meta <= r.value < Capacity(g) && !Used(g, old(disk), r.value)
                && (forall c: nat :: c < r.value ==> Used(g, old(disk), c))
                && disk == TakeBlock(g, old(disk), r.value)
      ensures r.Ok? ==> (r.value >= g.size <==> forall c: nat :: c < g.size ==> Used(g, old(disk), c))
      ensures r.Panicked? ==> r.why == NoSpace && disk == old(disk)
      ensures r.Panicked? <==> forall c: nat :: c < Capacity(g) ==> Used(g, old(disk), c)
    {
      hide Bit, WithBit, Used;
      var block := 0;
      while block < g.size
        invariant disk == old(disk)
        invariant block % BITS == 0 && 0 <= block <= Capacity(g)
        invariant forall c: nat :: c < block ==> Used(g, disk, c)
      {
        var bm := g.bitmapStart + block / BITS;
        var idx := FirstClear(disk[bm]);
        UsedBelow(g, disk, block, disk[bm], idx);
        if idx < BITS {
          disk := disk[bm := WithBit(disk[bm], idx, true)];
          disk := disk[block + idx := ZeroBlock()];
          return Ok(block + idx);
        }
        block := block + BITS;
      }
      r := Panicked(NoSpace);
    }

    method BlockFree(block: nat) returns (r: Result<()>)
      requires ValidGeometry(g) && |disk| == Capacity(g) && block < Capacity(g)
      modifies this`disk
      ensures r.Ok? <==> Used(g, old(disk), block)
      ensures r.Ok? ==> disk == Mark(g, old(disk), block, false)
      ensures r.Panicked? ==> r.why == AlreadyFree && disk == old(disk)
    {
      var bm := g.bitmapStart + block / BITS;
      var idx := block % BITS;
      if !Bit(disk[bm], idx) {
        return Panicked(AlreadyFree);
      }
      disk := disk[bm := WithBit(disk[bm], idx, false)];
      r := Ok(());
    }

    // Number of non-zero words of a block.
    method ScanBlock(block: nat) returns (n: nat)
      requires block < |disk|
      ensures n == 0 <==> forall i: nat :: i < WORDS ==> Word(disk[block], i) == 0
    {
      n := 0;
      var scan := 0;
      while scan < WORDS
        invariant 0 <= scan <= WORDS
        invariant n == 0 <==> forall i: nat :: i < scan ==> Word(disk[block], i) == 0
      {
        if Word(disk[block], scan) != 0 {
          n := n + 1;
        }
        scan := scan + 1;
      }
    }

    // The assignment `slot = block_alloc()` for an empty slot.
    method AllocInto(ino: nat, s: Slot) returns (r: Result<nat>)
      requires Valid() && ino in nodes && ValidSlot(s)
      requires Ptr(disk, nodes[ino], s) == 0
      requires s.Addr? || Holder(disk, nodes[ino], s) != 0
      modifies this
      ensures Valid()
      ensures SameBytes(old(disk), old(nodes), disk, nodes)
      ensures r.Ok? ==>
                && r.value != 0
                && PtrsExcept(old(disk), old(nodes), disk, nodes, Loc(ino, s), r.value)
                && UsedExcept(g, old(disk), disk, r.value, true)
      ensures r.Panicked? ==> r.why == NoSpace && Full(g, disk) && Unchanged(old(disk), old(nodes), old(owner))
      ensures TakenLow(g, old(owner), owner)
    {
      hide Bit, WithBit, WithWord, ByteAt, OwnersPoint, PointersOwn, SameFile, TakenLow;
      TakenLowRefl(g, owner);
      var h := Holder(disk, nodes[ino], s);
      SameBytesRefl(disk, nodes);
      if !s.Addr? {
        PointerOwns(g, disk, nodes, owner, ino, Parent(s));
      }
      r := BlockAlloc();
      if r.Ok? {
        var b := r.value;
        if s.Addr? {
          nodes := nodes[ino := nodes[ino].(addrs := nodes[ino].addrs[s.k := b])];
        } else {
          disk := disk[h := WithWord(disk[h], Index(s), b)];
        }
        assert CanTake(g, old(disk), old(nodes), owner, b, Loc(ino, s));
        assert nodes == old(nodes)[ino := SetPtrNode(old(nodes)[ino], s, b)];
        TakeInv(g, old(disk), old(nodes), owner, b, Loc(ino, s), disk, nodes);
        TakeBytes(g, old(disk), old(nodes), owner, b, Loc(ino, s), disk, nodes);
        FreeUnowned(g, old(disk), nodes, owner, b);
        LowestTaken(g, old(disk), old(nodes), owner, b, Loc(ino, s));
        owner := owner[b := Loc(ino, s)];
      }
    }
  
    /** Disk block of file block fbn, allocated if missing; no file reads differently afterwards. */
    method BlockMap(ino: nat, fbn: nat) returns (r: Result<nat>)
      requires Valid() && ino in nodes
      modifies this
      ensures Valid()
      ensures SameBytes(old(disk), old(nodes), disk, nodes)
      ensures Grown(old(disk), old(nodes), disk, nodes, ino, fbn)
      ensures r.Ok? ==>
                && fbn < MAX_BLOCKS
                && r.value == Ptr(disk, nodes[ino], DataSlot(fbn)) && g.meta <= r.value < |disk|
                && forall s :: ValidSlot(s) && Serves(s, fbn) ==> Ptr(disk, nodes[ino], s) != 0
      ensures r.Panicked? ==> r.why == if fbn < MAX_BLOCKS then NoSpace else OutOfRange
      ensures r.Panicked? && fbn < MAX_BLOCKS ==> Full(g, disk) && Ptr(disk, nodes[ino], DataSlot(fbn)) == 0
      ensures fbn < MAX_BLOCKS && Ptr(old(disk), old(nodes)[ino], DataSlot(fbn)) != 0 ==>
                r.Ok? && Unchanged(old(disk), old(nodes), old(owner))
      ensures TakenLow(g, old(owner), owner)
    {
      hide Inv, ByteAt, Grown, Ptr, TakenLow, Full, SameFile;
      if fbn < NUM_DIRECT {
        r := Fill(ino, Addr(fbn), fbn);
      } else if fbn < NUM_DIRECT + NUM_SIND {
        r := Fill(ino, Addr(SIND_IDX), fbn);
        r := FillBelow(ino, Sind(fbn - NUM_DIRECT), fbn, r, old(disk), old(nodes), old(owner));
      } else if fbn < NUM_DIRECT + NUM_SIND + NUM_DIND {
        var midx := (fbn - NUM_DIRECT - NUM_SIND) / NUM_SIND;
        var sidx := (fbn - NUM_DIRECT - NUM_SIND) % NUM_SIND;
        r := Fill(ino, Addr(DIND_IDX), fbn);
        r := FillBelow(ino, Mid(midx), fbn, r, old(disk), old(nodes), old(owner));
        r := FillBelow(ino, Dind(midx, sidx), fbn, r, old(disk), old(nodes), old(owner));
      } else {
        TakenLowRefl(g, owner);
        SameBytesRefl(disk, nodes);
        GrownRefl(disk, nodes, ino, fbn);
        return Panicked(OutOfRange);
      }
      if r.Ok? {
        AllServed(disk, nodes[ino], fbn);
        PointerOwns(g, disk, nodes, owner, ino, DataSlot(fbn));
      }
    }

    // The next level of block_map, below one that is filled unless that failed.
    method FillBelow(ino: nat, s: Slot, ghost fbn: nat, above: Result<nat>,
                     ghost d0: Disk, ghost n0: map<nat, Inode>, ghost o0: map<nat, Loc>) returns (r: Result<nat>)
      requires Valid() && ino in nodes && ValidSlot(s) && Serves(s, fbn) && !s.Addr?
      requires Mapped(g, d0, n0, o0, disk, nodes, owner, ino, Parent(s), fbn, above)
      modifies this
      ensures Valid() && Mapped(g, d0, n0, o0, disk, nodes, owner, ino, s, fbn, r)
    {
      hide Inv, Ptr, Mapped;
      AboveSet(g, d0, n0, o0, disk, nodes, owner, ino, s, fbn, above);
      if above.Panicked? {
        return above;
      }
      ghost var d1, n1, o1 := disk, nodes, owner;
      r := Fill(ino, s, fbn);
      MappedBelow(g, d0, n0, o0, d1, n1, o1, disk, nodes, owner, ino, s, fbn, above, r);
    }

    // `if (slot == 0) slot = block_alloc()`: one level of block_map.
    method Fill(ino: nat, s: Slot, ghost fbn: nat) returns (r: Result<nat>)
      requires Valid() && ino in nodes && ValidSlot(s) && Serves(s, fbn)
      requires s.Addr? || Holder(disk, nodes[ino], s) != 0
      modifies this
      ensures Valid() && Mapped(g, old(disk), old(nodes), old(owner), disk, nodes, owner, ino, s, fbn, r)
    {
      hide Used, OwnersPoint, PointersOwn, MarkedIffOwned, ByteAt, Grown, Ptr, TakenLow, Full;
      var p := Ptr(disk, nodes[ino], s);
      TakenLowRefl(g, owner);
      SameBytesRefl(disk, nodes);
      GrownRefl(disk, nodes, ino, fbn);
      if p == 0 {
        r := AllocInto(ino, s);
        if r.Ok? {
          FilledGrown(old(disk), old(nodes), disk, nodes, Loc(ino, s), r.value, fbn);
        }
      } else {
        r := Ok(p);
      }
    }

    // One turn of cofs_read's loop: a chunk that lies inside one file block.
    method ReadBlock(ino: nat, off: nat, len: nat) returns (r: Result<nat>, chunk: seq<byte>)
      requires Valid() && ino in nodes && len <= BLOCK_SIZE - off % BLOCK_SIZE
      modifies this
      ensures Valid() && SameBytes(old(disk), old(nodes), disk, nodes)
      ensures OthersKept(old(disk), old(nodes), disk, nodes, ino)
      ensures r.Ok? ==> off / BLOCK_SIZE < MAX_BLOCKS && chunk == Bytes(disk, nodes[ino], off, off + len)
      ensures r.Panicked? ==>
                if off / BLOCK_SIZE < MAX_BLOCKS then r.why == NoSpace && Full(g, disk) else r.why == OutOfRange
      ensures off / BLOCK_SIZE < MAX_BLOCKS && Ptr(old(disk), old(nodes)[ino], DataSlot(off / BLOCK_SIZE)) != 0 ==>
                r.Ok? && Unchanged(old(disk), old(nodes), old(owner))
    {
      hide Ptr, OwnersPoint, PointersOwn, MarkedIffOwned, Used, Grown, ByteAt, OthersKept;
      chunk := [];
      r := BlockMap(ino, off / BLOCK_SIZE);
      GrownOthers(old(disk), old(nodes), disk, nodes, ino, off / BLOCK_SIZE);
      if r.Ok? {
        chunk := disk[r.value][off % BLOCK_SIZE..off % BLOCK_SIZE + len];
        ReadChunk(disk, nodes[ino], off, len, chunk);
      }
    }

    // cofs_read's loop: the bytes at offset, which lie below the capacity unless it fails.
    method ReadChunks(ino: nat, offset: nat, size: nat) returns (r: Result<nat>, data: seq<byte>)
      requires Valid() && ino in nodes && offset <= nodes[ino].size
      modifies this
      ensures Valid() && SameBytes(old(disk), old(nodes), disk, nodes) && nodes.Keys == old(nodes.Keys)
      ensures OthersKept(old(disk), old(nodes), disk, nodes, ino)
      ensures r.Ok? ==> offset + size <= MAX_BLOCKS * BLOCK_SIZE && data == Bytes(old(disk), old(nodes[ino]), offset, offset + size)
      ensures r.Panicked? ==>
                || (r.why == NoSpace && Full(g, disk))
                || (r.why == OutOfRange && offset + size > MAX_BLOCKS * BLOCK_SIZE)
      ensures offset + size <= old(nodes[ino].size) && Dense(old(disk), old(nodes)[ino], Blocks(old(nodes[ino].size))) ==>
                r.Ok? && Unchanged(old(disk), old(nodes), old(owner))
    {
      hide Ptr, Inv, ByteAt, OthersKept, Dense, Bytes, SameFile, Full;
      data := [];
      BytesNone(disk, nodes[ino], offset);
      SizeBound(g, disk, nodes, owner, ino);
      SameBytesRefl(disk, nodes);
      OthersRefl(disk, nodes, ino);
      var total, off := 0, offset;
      while total < size
        invariant Valid() && ino in nodes
        invariant 0 <= total <= size && off == offset + total && |data| == total
        invariant SameBytes(old(disk), old(nodes), disk, nodes)
        invariant off <= MAX_BLOCKS * BLOCK_SIZE
        invariant data == Bytes(old(disk), old(nodes[ino]), offset, off) && nodes.Keys == old(nodes.Keys)
        invariant OthersKept(old(disk), old(nodes), disk, nodes, ino)
        invariant offset + size <= old(nodes[ino].size) && Dense(old(disk), old(nodes)[ino], Blocks(old(nodes[ino].size))) ==>
                    Unchanged(old(disk), old(nodes), old(owner))
      {
        ghost var d1, n1 := disk, nodes;
        if offset + size <= old(nodes[ino].size) && Dense(d1, n1[ino], Blocks(old(nodes[ino].size))) {
          DenseMapped(d1, n1[ino], off, old(nodes[ino].size));
        }
        var numBytes := Min(size - total, BLOCK_SIZE - off % BLOCK_SIZE);
        var m, chunk := ReadBlock(ino, off, numBytes);
        SameBytesTrans(old(disk), old(nodes), d1, n1, disk, nodes);
        OthersTrans(old(disk), old(nodes), d1, n1, disk, nodes, ino);
        if m.Panicked? {
          return m, data;
        }
        SameBytesOf(old(disk), old(nodes), disk, nodes, ino, offset, off, off + numBytes);
        data := data + chunk;
        off := off + numBytes;
        total := total + numBytes;
      }
      r := Ok(size);
    }

    /** Reads up to size bytes at offset: exactly the slice of the file that lies there. */
    method Read(ino: nat, offset: nat, size: nat) returns (r: Result<nat>, data: seq<byte>)
      requires Valid() && ino in nodes
      requires offset < WORD_LIMIT && size < WORD_LIMIT
      modifies this
      ensures Valid()
      ensures SameBytes(old(disk), old(nodes), disk, nodes)
      ensures r.Ok? ==> r.value == |data|
      ensures r.Ok? && offset > old(nodes[ino].size) ==> data == []
      ensures r.Ok? && offset <= old(nodes[ino].size) ==>
                && offset + size < WORD_LIMIT
                && data == Content(old(disk), old(nodes[ino]))[offset..Min(offset + size, old(nodes[ino].size))]
      ensures r.Panicked? ==>
                || (r.why == NoSpace && Full(g, disk))
                || (r.why == OutOfRange && offset <= old(nodes[ino].size) && offset + size >= WORD_LIMIT)
      ensures OthersKept(old(disk), old(nodes), disk, nodes, ino)
      ensures offset > old(nodes[ino].size) ==> r.Ok? && Unchanged(old(disk), old(nodes), old(owner))
      ensures offset + size < WORD_LIMIT && Dense(old(disk), old(nodes)[ino], Blocks(old(nodes[ino].size))) ==>
                r.Ok? && Unchanged(old(disk), old(nodes), old(owner))
    {
      hide Ptr, Inv, ByteAt, OthersKept, Dense, Bytes, SameFile, Full;
      data := [];
      SizeBound(g, disk, nodes, owner, ino);
      SameBytesRefl(disk, nodes);
      OthersRefl(disk, nodes, ino);
      if offset > nodes[ino].size {
        return Ok(0), data;
      }
      var size' := size;
      if (offset + size) % WORD_LIMIT > nodes[ino].size {
        size' := nodes[ino].size - offset;
      }
      r, data := ReadChunks(ino, offset, size');
      if r.Panicked? {
        return;
      }
      var off := offset + size';
      if off <= old(nodes[ino].size) {
        ContentSlice(old(disk), old(nodes[ino]), offset, off);
      }
      r := Ok(size');
    }

    // One turn of cofs_write's loop: a chunk that stays inside one file block.
    method WriteBlock(ino: nat, off: nat, chunk: seq<byte>) returns (r: Result<nat>)
      requires Valid() && ino in nodes
      requires 0 < |chunk| <= BLOCK_SIZE - off % BLOCK_SIZE
      modifies this
      ensures Valid() && nodes.Keys == old(nodes.Keys)
      ensures forall i :: i in nodes && i != ino ==> SameFile(old(disk), old(nodes)[i], disk, nodes[i])
      ensures OthersKept(old(disk), old(nodes), disk, nodes, ino)
      ensures nodes[ino].size == old(nodes[ino].size)
      ensures r.Ok? ==> off / BLOCK_SIZE < MAX_BLOCKS
      ensures r.Ok? ==> Overlaid(old(disk), old(nodes[ino]), disk, nodes[ino], off, chunk)
      ensures r.Panicked? ==> SameBytes(old(disk), old(nodes), disk, nodes)
      ensures r.Panicked? ==>
                if off / BLOCK_SIZE < MAX_BLOCKS then
                  r.why == NoSpace && Full(g, disk) && Ptr(disk, nodes[ino], DataSlot(off / BLOCK_SIZE)) == 0
                else r.why == OutOfRange
      ensures Grown(old(disk), old(nodes), disk, nodes, ino, off / BLOCK_SIZE)
      ensures r.Ok? ==> forall s :: ValidSlot(s) && Serves(s, off / BLOCK_SIZE) ==> Ptr(disk, nodes[ino], s) != 0
      ensures off / BLOCK_SIZE < MAX_BLOCKS && Ptr(old(disk), old(nodes)[ino], DataSlot(off / BLOCK_SIZE)) != 0 ==> r.Ok?
      ensures TakenLow(g, old(owner), owner)
    {
      hide Ptr, Used, OwnersPoint, PointersOwn, MarkedIffOwned, ByteAt, Grown, OthersKept, TakenLow;
      r := BlockMap(ino, off / BLOCK_SIZE);
      GrownOthers(old(disk), old(nodes), disk, nodes, ino, off / BLOCK_SIZE);
      if r.Panicked? {
        return;
      }
      var o := off % BLOCK_SIZE;
      var v: Block := disk[r.value][..o] + chunk + disk[r.value][o + |chunk|..];
      ghost var d1, at := disk, Loc(ino, DataSlot(off / BLOCK_SIZE));
      disk := disk[r.value := v];
      PokeInv(g, d1, nodes, owner, at, v, disk);
      forall i | i in nodes && i != ino ensures SameFile(old(disk), old(nodes)[i], disk, nodes[i]) {
        PokeOther(g, old(disk), old(nodes), d1, nodes, owner, at, v, i);
      }
      PokeOverlaid(g, old(disk), old(nodes), d1, nodes, owner, at, r.value, v, off, chunk, disk);
      PokeGrown(old(disk), old(nodes), d1, disk, nodes, ino, off / BLOCK_SIZE);
      GrownOthers(old(disk), old(nodes), disk, nodes, ino, off / BLOCK_SIZE);
    }

    // cofs_write's loop: the buffer laid over the file, whose size is not yet changed.
    method WriteChunks(ino: nat, offset: nat, buffer: seq<byte>) returns (r: Result<nat>)
      requires Valid() && ino in nodes && offset <= nodes[ino].size
      modifies this
      ensures Valid() && nodes.Keys == old(nodes.Keys) && nodes[ino].size == old(nodes[ino].size)
      ensures forall i :: i in nodes && i != ino ==> SameFile(old(disk), old(nodes)[i], disk, nodes[i])
      ensures OthersKept(old(disk), old(nodes), disk, nodes, ino) && TakenLow(g, old(owner), owner)
      ensures r.Ok? ==> offset + |buffer| <= MAX_BLOCKS * BLOCK_SIZE
      ensures r.Ok? ==> Overlaid(old(disk), old(nodes[ino]), disk, nodes[ino], offset, buffer)
      ensures r.Ok? && Dense(old(disk), old(nodes[ino]), Blocks(old(nodes[ino].size))) ==>
                Dense(disk, nodes[ino], if offset + |buffer| > nodes[ino].size then Blocks(offset + |buffer|)
                                        else Blocks(nodes[ino].size))
      ensures r.Panicked? ==>
                || (r.why == NoSpace && Full(g, disk))
                || (r.why == OutOfRange && offset + |buffer| > MAX_BLOCKS * BLOCK_SIZE)
      ensures r.Panicked? && r.why == NoSpace && Dense(old(disk), old(nodes[ino]), Blocks(old(nodes[ino].size))) ==>
                Short(disk, nodes[ino], Blocks(offset + |buffer|))
      ensures Dense(old(disk), old(nodes[ino]), Blocks(old(nodes[ino].size))) && offset + |buffer| <= old(nodes[ino].size) ==>
                r.Ok?
    {
      TakenLowRefl(g, owner);
      hide TakenLow, Dense, Short, Grown, Overlaid, Ptr, SameFile, Inv, OthersKept, Full, SameBytes;
      SizeBound(g, disk, nodes, owner, ino);
      OthersRefl(disk, nodes, ino);
      AllSame(disk, nodes, ino);
      OverlaidRefl(disk, nodes[ino], offset, buffer);
      var total, off := 0, offset;
      ghost var e0 := Blocks(nodes[ino].size);
      while total < |buffer|
        invariant Valid() && nodes.Keys == old(nodes.Keys)
        invariant 0 <= total <= |buffer| && off == offset + total
        invariant off <= MAX_BLOCKS * BLOCK_SIZE
        invariant nodes[ino].size == old(nodes[ino].size)
        invariant Overlaid(old(disk), old(nodes[ino]), disk, nodes[ino], offset, buffer[..total])
        invariant forall i :: i in nodes && i != ino ==> SameFile(old(disk), old(nodes)[i], disk, nodes[i])
        invariant OthersKept(old(disk), old(nodes), disk, nodes, ino) && TakenLow(g, old(owner), owner)
        invariant Dense(old(disk), old(nodes[ino]), e0) ==>
                    Dense(disk, nodes[ino], if Blocks(off) <= e0 then e0 else Blocks(off))
      {
        var numBytes := Min(|buffer| - total, BLOCK_SIZE - off % BLOCK_SIZE);
        ghost var d1, n1, o1 := disk, nodes, owner;
        if Dense(old(disk), old(nodes[ino]), e0) && offset + |buffer| <= nodes[ino].size {
          StillWithin(off, nodes[ino].size);
          DenseMapped(disk, nodes[ino], off, nodes[ino].size);
        }
        var m := WriteBlock(ino, off, buffer[total..total + numBytes]);
        FilesTrans(old(disk), old(nodes), d1, n1, disk, nodes, ino);
        OthersTrans(old(disk), old(nodes), d1, n1, disk, nodes, ino);
        TakenLowTrans(g, old(owner), o1, owner);
        if m.Panicked? {
          if m.why == NoSpace && Dense(old(disk), old(nodes[ino]), e0) {
            WriteShort(d1, n1, disk, nodes, ino, off, if Blocks(off) <= e0 then e0 else Blocks(off), offset + |buffer|);
          }
          return m;
        }
        OverlaidTrans(old(disk), old(nodes)[ino], d1, n1[ino], disk, nodes[ino], offset, buffer, total, numBytes);
        if Dense(old(disk), old(nodes[ino]), e0) {
          WriteDense(d1, n1, disk, nodes, ino, off, numBytes, e0);
        }
        off := off + numBytes;
        total := total + numBytes;
      }
      assert buffer[..total] == buffer;
      r := Ok(|buffer|);
    }

    /** Writes buffer at offset: the file becomes the old one with the buffer spliced in, every other file is unchanged. */
    method Write(ino: nat, offset: nat, buffer: seq<byte>) returns (r: Result<nat>)
      requires Valid() && ino in nodes
      requires offset < WORD_LIMIT && |buffer| < WORD_LIMIT
      modifies this
      ensures Valid() && nodes.Keys == old(nodes.Keys)
      ensures forall i :: i in nodes && i != ino ==> SameFile(old(disk), old(nodes)[i], disk, nodes[i])
      ensures OthersKept(old(disk), old(nodes), disk, nodes, ino)
      ensures Refused(old(nodes[ino].size), offset, |buffer|) ==> r == Ok(0) && SameBytes(old(disk), old(nodes), disk, nodes)
      ensures !Refused(old(nodes[ino].size), offset, |buffer|) && r.Ok? ==>
                && offset + |buffer| < WORD_LIMIT
                && r.value == |buffer|
                && Content(disk, nodes[ino]) == Splice(Content(old(disk), old(nodes[ino])), offset, buffer)
      ensures r.Panicked? ==>
                || (r.why == NoSpace && Full(g, disk))
                || (r.why == OutOfRange && offset + |buffer| >= WORD_LIMIT)
      ensures r.Ok? && Dense(old(disk), old(nodes[ino]), Blocks(old(nodes[ino].size))) ==>
                Dense(disk, nodes[ino], Blocks(nodes[ino].size))
      ensures r.Panicked? && offset + |buffer| < WORD_LIMIT
              && Dense(old(disk), old(nodes[ino]), Blocks(old(nodes[ino].size))) ==>
                Short(disk, nodes[ino], Blocks(offset + |buffer|))
      ensures Dense(old(disk), old(nodes[ino]), Blocks(old(nodes[ino].size))) && offset + |buffer| <= old(nodes[ino].size) ==>
                r.Ok?
      ensures TakenLow(g, old(owner), owner)
    {
      TakenLowRefl(g, owner);
      hide TakenLow, Dense, Short, Grown, Overlaid, Ptr, SameFile, OwnersPoint, PointersOwn, MarkedIffOwned, Used, Splice, Content, OthersKept;
      OthersRefl(disk, nodes, ino);
      SameBytesRefl(disk, nodes);
      OverlaidRefl(disk, nodes[ino], offset, buffer);
      if offset > nodes[ino].size {
        return Ok(0);
      }
      if (offset + |buffer|) % WORD_LIMIT > WRITE_LIMIT {
        return Ok(0);
      }
      r := WriteChunks(ino, offset, buffer);
      if r.Panicked? {
        return;
      }
      var off := offset + |buffer|;
      SpliceOverlaid(old(disk), old(nodes[ino]), disk, nodes[ino], offset, buffer);
      if |buffer| > 0 && off > nodes[ino].size {
        ResizeInv(g, disk, nodes, owner, ino, off);
        ResizeBytes(disk, nodes[ino], off);
        OthersResize(old(disk), old(nodes), disk, nodes, ino, off);
        nodes := nodes[ino := nodes[ino].(size := off)];
      }
      r := Ok(|buffer|);
    }

    // `addr = word; word = 0; block_free(addr)` for a data slot kept in an indirect block. Nothing tests that the
    // slot or its indirect block is there: when it is not, block 0 is read instead and bit 0 is cleared.
    method FreeData(ino: nat, s: Slot) returns (r: Result<()>)
      requires Valid() && ino in nodes && ValidSlot(s) && IsData(s) && !s.Addr?
      modifies this
      ensures nodes == old(nodes) && |disk| == |old(disk)| && owner.Keys <= old(owner.Keys)
      ensures Ptr(old(disk), nodes[ino], s) != 0 ==>
                && r.Ok? && Valid()
                && PtrsExcept(old(disk), old(nodes), disk, nodes, Loc(ino, s), 0)
                && BytesExcept(old(disk), old(nodes), disk, nodes, ino, Lo(s))
      ensures Ptr(old(disk), nodes[ino], s) == 0 ==> !Used(g, disk, 0) && PtrsSame(old(disk), disk, nodes)
    {
      hide Ptr, Bit, WithBit, WithWord, ByteAt, OwnersPoint, PointersOwn, MarkedIffOwned, Used, PtrsExcept, BytesExcept, PtrsSame;
      ghost var b := Ptr(disk, nodes[ino], s);
      var h := Holder(disk, nodes[ino], s);
      if h != 0 {
        PointerOwns(g, disk, nodes, owner, ino, Parent(s));
      }
      PtrIsWord(disk, nodes[ino], s);
      ZeroWords(Index(s));
      var addr := Word(disk[h], Index(s));
      disk := disk[h := WithWord(disk[h], Index(s), 0)];
      ghost var d1 := disk;
      if b != 0 {
        PointerOwns(g, old(disk), nodes, owner, ino, s);
      }
      UsedElsewhere(g, old(disk), h, disk[h], addr);
      r := BlockFree(addr);
      if b != 0 {
        FreedData(g, old(disk), nodes, owner, ino, s, h, b, d1, disk);
        owner := owner - {b};
      } else {
        SpoilPtrs(g, old(disk), nodes, owner, h, Index(s), disk);
      }
    }

    // `if (scan_block(b) == 0) { block_free(b); slot = 0; }` for the indirect block b that slot s names.
    method FreeIfEmpty(ino: nat, s: Slot) returns (r: Result<()>)
      requires ValidGeometry(g) && |disk| == Capacity(g)
      requires ino in nodes && |nodes[ino].addrs| == 9 && ValidSlot(s) && !IsData(s)
      requires Ptr(disk, nodes[ino], s) < |disk|
      requires !s.Addr? ==> Holder(disk, nodes[ino], s) == 0 || g.meta <= Holder(disk, nodes[ino], s) < |disk|
      modifies this
      ensures ValidGeometry(g) && |disk| == Capacity(g) && nodes.Keys == old(nodes.Keys) && owner.Keys <= old(owner.Keys)
      ensures !s.Addr? ==> nodes == old(nodes)
      ensures old(Valid()) && Ptr(old(disk), old(nodes)[ino], s) != 0 ==>
                && r.Ok? && Valid()
                && SameBytes(old(disk), old(nodes), disk, nodes)
                && PtrsExcept(old(disk), old(nodes), disk, nodes, Loc(ino, s),
                              if Empty(old(disk), old(nodes)[ino], s) then 0 else Ptr(old(disk), old(nodes)[ino], s))
      ensures !Used(g, old(disk), 0) ==> r.Panicked? || !Used(g, disk, 0)
    {
      hide Ptr, Bit, WithBit, WithWord, ByteAt, OwnersPoint, PointersOwn, MarkedIffOwned;
      var b, h := Ptr(disk, nodes[ino], s), Holder(disk, nodes[ino], s);
      SameBytesRefl(disk, nodes);
      if Valid() && b != 0 {
        PointerOwns(g, disk, nodes, owner, ino, s);
        EmptyWords(disk, nodes[ino], s);
        if !s.Addr? && h != 0 {
          PointerOwns(g, disk, nodes, owner, ino, Parent(s));
        }
        PtrHolder(disk, nodes[ino], s);
      }
      var n := ScanBlock(b);
      if n == 0 {
        r := BlockFree(b);
        if r.Panicked? {
          return;
        }
        UsedAfterMark(g, old(disk), b, false, 0);
        ghost var d1 := disk;
        if s.Addr? {
          nodes := nodes[ino := nodes[ino].(addrs := nodes[ino].addrs[s.k := 0])];
        } else {
          UsedElsewhere(g, disk, h, WithWord(disk[h], Index(s), 0), 0);
          disk := disk[h := WithWord(disk[h], Index(s), 0)];
        }
        if old(Valid()) && b != 0 {
          ghost var at := Loc(ino, s);
          assert disk == GiveDisk(g, old(disk), b, h, s);
          assert CanGive(g, old(disk), old(nodes), owner, at);
          assert nodes == old(nodes)[ino := SetPtrNode(old(nodes)[ino], s, 0)];
          GiveInv(g, old(disk), old(nodes), owner, b, at, disk, nodes);
          GiveBytes(g, old(disk), old(nodes), owner, at, disk, nodes);
          owner := owner - {b};
        }
      } else {
        r := Ok(());
      }
    }

    /** One turn of cofs_truncate's loop. It frees file block fbn and the indirect blocks this empties; but past the
        direct range it takes for granted that the block is there, and when it is not it frees block 0. */
    method TruncateBlock(ino: nat, fbn: nat) returns (r: Result<()>)
      requires Valid() && ino in nodes
      modifies this
      ensures |disk| == |old(disk)| && nodes.Keys == old(nodes.Keys) && owner.Keys <= old(owner.Keys)
      ensures Missing(old(disk), old(nodes)[ino], fbn) ==> r.Panicked? || !Used(g, disk, 0)
      ensures !Missing(old(disk), old(nodes)[ino], fbn) ==>
                r.Ok? && Valid() && FreedIn(old(disk), old(nodes), disk, nodes, ino, fbn)
    {
      hide Ptr, Used, Inv, FreedIn;
      if fbn < NUM_DIRECT {
        r := TruncateDirect(ino, fbn);
      } else if fbn < NUM_DIRECT + NUM_SIND {
        r := TruncateSind(ino, fbn);
      } else if fbn < NUM_DIRECT + NUM_SIND + NUM_DIND {
        r := TruncateDind(ino, fbn);
      } else {
        BeyondFreed(disk, nodes, ino, fbn);
        r := Ok(());
      }
    }

    method TruncateDirect(ino: nat, fbn: nat) returns (r: Result<()>)
      requires Valid() && ino in nodes && fbn < NUM_DIRECT
      modifies this
      ensures r.Ok? && Valid() && |disk| == |old(disk)| && nodes.Keys == old(nodes.Keys) && owner.Keys <= old(owner.Keys)
      ensures !Missing(old(disk), old(nodes)[ino], fbn)
      ensures FreedIn(old(disk), old(nodes), disk, nodes, ino, fbn)
    {
      hide Ptr, Bit, WithBit, ByteAt, OwnersPoint, PointersOwn, MarkedIffOwned;
      ghost var at := Loc(ino, Addr(fbn));
      AddrIs(disk, nodes[ino], fbn);
      var addr := nodes[ino].addrs[fbn];
      if addr != 0 {
        PointerOwns(g, disk, nodes, owner, ino, at.slot);
        r := BlockFree(addr);
        nodes := nodes[ino := nodes[ino].(addrs := nodes[ino].addrs[fbn := 0])];
        assert disk == GiveDisk(g, old(disk), addr, 0, at.slot);
        assert CanGive(g, old(disk), old(nodes), owner, at);
        GiveInv(g, old(disk), old(nodes), owner, addr, at, disk, nodes);
        GiveBytes(g, old(disk), old(nodes), owner, at, disk, nodes);
        owner := owner - {addr};
      } else {
        r := Ok(());
      }
      DirectFreed(old(disk), old(nodes), disk, nodes, ino, fbn);
    }

    method TruncateSind(ino: nat, fbn: nat) returns (r: Result<()>)
      requires Valid() && ino in nodes && NUM_DIRECT <= fbn < DIND_BASE
      modifies this
      ensures |disk| == |old(disk)| && nodes.Keys == old(nodes.Keys) && owner.Keys <= old(owner.Keys)
      ensures Missing(old(disk), old(nodes)[ino], fbn) ==> r.Panicked? || !Used(g, disk, 0)
      ensures !Missing(old(disk), old(nodes)[ino], fbn) ==>
                r.Ok? && Valid() && FreedIn(old(disk), old(nodes), disk, nodes, ino, fbn)
    {
      hide Ptr, Bit, Used, ByteAt, OwnersPoint, PointersOwn, MarkedIffOwned, Empty;
      ghost var s := Sind(fbn - NUM_DIRECT);
      IndirectBounds(g, disk, nodes, owner, ino, Addr(SIND_IDX));
      PtrChain(disk, nodes[ino], s);
      r := FreeData(ino, Sind(fbn - NUM_DIRECT));
      if r.Panicked? {
        return;
      }
      ghost var d1 := disk;
      AddrPtr(old(disk), d1, nodes[ino], Addr(SIND_IDX));
      r := FreeIfEmpty(ino, Addr(SIND_IDX));
      if !Missing(old(disk), old(nodes)[ino], fbn) {
        SindFreed(old(disk), old(nodes), d1, old(nodes), disk, nodes, ino, fbn);
      }
    }

    method TruncateDind(ino: nat, fbn: nat) returns (r: Result<()>)
      requires Valid() && ino in nodes && DIND_BASE <= fbn < MAX_BLOCKS
      modifies this
      ensures |disk| == |old(disk)| && nodes.Keys == old(nodes.Keys) && owner.Keys <= old(owner.Keys)
      ensures Missing(old(disk), old(nodes)[ino], fbn) ==> r.Panicked? || !Used(g, disk, 0)
      ensures !Missing(old(disk), old(nodes)[ino], fbn) ==>
                r.Ok? && Valid() && FreedIn(old(disk), old(nodes), disk, nodes, ino, fbn)
    {
      hide Ptr, Bit, Used, ByteAt, OwnersPoint, PointersOwn, MarkedIffOwned, Empty;
      var midx := (fbn - NUM_DIRECT - NUM_SIND) / NUM_SIND;
      var sidx := (fbn - NUM_DIRECT - NUM_SIND) % NUM_SIND;
      IndirectBounds(g, disk, nodes, owner, ino, Addr(DIND_IDX));
      IndirectBounds(g, disk, nodes, owner, ino, Mid(midx));
      PtrChain(disk, nodes[ino], Dind(midx, sidx));
      r := FreeData(ino, Dind(midx, sidx));
      if r.Panicked? {
        return;
      }
      ghost var d1 := disk;
      AddrPtr(old(disk), d1, nodes[ino], Addr(DIND_IDX));
      r := FreeIfEmpty(ino, Mid(midx));
      if r.Panicked? {
        return;
      }
      ghost var d2 := disk;
      AddrPtr(old(disk), d2, nodes[ino], Addr(DIND_IDX));
      r := FreeIfEmpty(ino, Addr(DIND_IDX));
      if !Missing(old(disk), old(nodes)[ino], fbn) {
        DindFreed(old(disk), old(nodes), d1, d2, disk, nodes, ino, fbn);
      }
    }

    /** Truncates to length. For a dense file this frees exactly the file blocks from length / BLOCK_SIZE on and the
        indirect blocks left without an entry, and keeps the first length bytes; it does so if and only if the loop,
        which runs one block too far when the size is a whole number of blocks, does not meet a missing block. */
    method Truncate(ino: nat, length: nat) returns (r: Result<nat>)
      requires Valid() && ino in nodes
      requires Dense(disk, nodes[ino], Blocks(nodes[ino].size))
      requires length <= nodes[ino].size && length % BLOCK_SIZE == 0
      modifies this
      ensures (r.Ok? && Valid()) <==> !RunsPastEnd(old(nodes[ino].size))
      ensures owner.Keys <= old(owner.Keys)
      ensures !RunsPastEnd(old(nodes[ino].size)) ==>
                && nodes.Keys == old(nodes.Keys) && r.value == length == nodes[ino].size
                && Dense(disk, nodes[ino], Blocks(length))
                && (forall s :: ValidSlot(s) && Lo(s) < Blocks(length) ==>
                                  Ptr(disk, nodes[ino], s) == Ptr(old(disk), old(nodes)[ino], s))
                && Content(disk, nodes[ino]) == Content(old(disk), old(nodes)[ino])[..length]
                && (forall i :: i in nodes && i != ino ==> SameFile(old(disk), old(nodes)[i], disk, nodes[i]))
                && OthersKept(old(disk), old(nodes), disk, nodes, ino)
    {
      hide Ptr, Used, ByteAt, OwnersPoint, PointersOwn, MarkedIffOwned, Dense, Content, SameFile, OthersKept;
      var fbs, fbe := length / BLOCK_SIZE, nodes[ino].size / BLOCK_SIZE + 1;
      ghost var e := Blocks(nodes[ino].size);
      ghost var spoiled := false;
      var fbn := fbs;
      TrimmedRefl(disk, nodes[ino], fbs, e);
      SameBytesRefl(disk, nodes);
      OthersRefl(disk, nodes, ino);
      while fbn < fbe
        invariant fbs <= fbn <= fbe && |disk| == |old(disk)| && nodes.Keys == old(nodes.Keys)
        invariant owner.Keys <= old(owner.Keys)
        invariant spoiled ==> fbn == fbe && RunsPastEnd(old(nodes[ino].size)) && !Used(g, disk, 0)
        invariant !spoiled ==> Valid()
        invariant !spoiled ==> fbn == fbe ==> !RunsPastEnd(old(nodes[ino].size))
        invariant !spoiled ==> forall i :: i in nodes && i != ino ==> SameFile(old(disk), old(nodes)[i], disk, nodes[i])
        invariant !spoiled ==> OthersKept(old(disk), old(nodes), disk, nodes, ino)
        invariant !spoiled ==> Trimmed(old(disk), old(nodes)[ino], disk, nodes[ino], fbs, fbn, e)
      {
        ghost var d1, n1 := disk, nodes;
        TrimmedNext(old(disk), old(nodes)[ino], d1, n1[ino], fbs, fbn, e);
        var t := TruncateBlock(ino, fbn);
        if t.Panicked? {
          return Panicked(t.why);
        }
        if Missing(d1, n1[ino], fbn) {
          spoiled := true;
        } else {
          TrimAny(old(disk), old(nodes)[ino], d1, n1[ino], disk, nodes[ino], fbs, fbn, e);
          FilesTrans(old(disk), old(nodes), d1, n1, disk, nodes, ino);
          OthersTrans(old(disk), old(nodes), d1, n1, disk, nodes, ino);
        }
        fbn := fbn + 1;
      }
      if !spoiled {
        TrimmedEnd(old(disk), old(nodes)[ino], disk, nodes[ino], fbs, fbe, e, length);
        ResizeInv(g, disk, nodes, owner, ino, length);
        OthersResize(old(disk), old(nodes), disk, nodes, ino, length);
      }
      nodes := nodes[ino := nodes[ino].(size := length)];
      r := Ok(length);
    }
  }

  lemma OthersResize(d0: Disk, n0: map<nat, Inode>, d1: Disk, n1: map<nat, Inode>, ino: nat, size: nat)
    requires OthersKept(d0, n0, d1, n1, ino) && ino in n1
    ensures OthersKept(d0, n0, d1, n1[ino := n1[ino].(size := size)], ino)
  {
    hide Ptr;
  }

  // The size is a whole number of blocks and the block after the last one lies past the direct range.
  predicate RunsPastEnd(size: nat) {
    size % BLOCK_SIZE == 0 && NUM_DIRECT <= size / BLOCK_SIZE < MAX_BLOCKS
  }

  lemma TrimmedRefl(disk: Disk, n: Inode, fbs: nat, e: nat)
    requires Dense(disk, n, e)
    ensures Trimmed(disk, n, disk, n, fbs, fbs, e)
  {
    forall s | ValidSlot(s) ensures TrimmedSlot(disk, n, disk, n, s, fbs, fbs, e) {
      assert Ptr(disk, n, s) != 0 <==> Lo(s) < e;
      assert Lo(s) < Hi(s);
    }
  }

  // While blocks remain, the next one is there; after the last one, it is missing.
  lemma TrimmedNext(d0: Disk, n0: Inode, d1: Disk, n1: Inode, fbs: nat, f: nat, e: nat)
    requires Dense(d0, n0, e) && Trimmed(d0, n0, d1, n1, fbs, f, e) && fbs <= f
    ensures f < MAX_BLOCKS ==> (Ptr(d1, n1, DataSlot(f)) != 0 <==> f < e)
    ensures Missing(d1, n1, f) <==> NUM_DIRECT <= f < MAX_BLOCKS && e <= f
  {
    hide Ptr;
    if f < MAX_BLOCKS {
      assert TrimmedSlot(d0, n0, d1, n1, DataSlot(f), fbs, f, e);
      assert Ptr(d0, n0, DataSlot(f)) != 0 <==> Lo(DataSlot(f)) < e;
    }
  }

  lemma TrimAny(d0: Disk, n0: Inode, d1: Disk, n1: Inode, d2: Disk, n2: Inode, fbs: nat, f: nat, e: nat)
    requires Dense(d0, n0, e) && fbs <= f && e <= MAX_BLOCKS
    requires Trimmed(d0, n0, d1, n1, fbs, f, e) && Freed(d1, n1, d2, n2, f)
    requires !Missing(d1, n1, f)
    ensures Trimmed(d0, n0, d2, n2, fbs, f + 1, e)
  {
    hide Ptr, ByteAt;
    if f < e {
      TrimStep(d0, n0, d1, n1, d2, n2, fbs, f, e);
    } else {
      TrimmedNext(d0, n0, d1, n1, fbs, f, e);
      forall s | ValidSlot(s) ensures TrimmedSlot(d0, n0, d2, n2, s, fbs, f + 1, e) {
        assert TrimmedSlot(d0, n0, d1, n1, s, fbs, f, e);
        assert FreedSlot(d1, n1, d2, n2, s, f);
        if f < MAX_BLOCKS {
          ServedBy(s, f);
        }
      }
    }
  }

  lemma FilesTrans(d0: Disk, n0: map<nat, Inode>, d1: Disk, n1: map<nat, Inode>, d2: Disk, n2: map<nat, Inode>, ino: nat)
    requires n0.Keys == n1.Keys == n2.Keys
    requires forall i :: i in n1 && i != ino ==> SameFile(d0, n0[i], d1, n1[i])
    requires forall i :: i in n2 && i != ino ==> SameFile(d1, n1[i], d2, n2[i])
    ensures forall i :: i in n2 && i != ino ==> SameFile(d0, n0[i], d2, n2[i])
  {
    forall i | i in n2 && i != ino ensures SameFile(d0, n0[i], d2, n2[i]) {
      SameFileTrans(d0, n0[i], d1, n1[i], d2, n2[i]);
    }
  }

  lemma TrimmedEnd(d0: Disk, n0: Inode, d1: Disk, n1: Inode, fbs: nat, f: nat, e: nat, length: nat)
    requires Dense(d0, n0, e) && Trimmed(d0, n0, d1, n1, fbs, f, e) && e <= f
    requires length <= n0.size && length % BLOCK_SIZE == 0 && fbs == length / BLOCK_SIZE && fbs <= e
    ensures Dense(d1, n1.(size := length), Blocks(length))
    ensures forall s :: ValidSlot(s) && Lo(s) < Blocks(length) ==> Ptr(d1, n1.(size := length), s) == Ptr(d0, n0, s)
    ensures Content(d1, n1.(size := length)) == Content(d0, n0)[..length]
  {
    hide Ptr, ByteAt;
    assert Blocks(length) == fbs;
    forall s | ValidSlot(s)
      ensures Ptr(d1, n1.(size := length), s) == if Lo(s) < fbs then Ptr(d0, n0, s) else 0
    {
      ResizePtr(d1, n1, length, s);
      assert TrimmedSlot(d0, n0, d1, n1, s, fbs, f, e);
      assert Ptr(d0, n0, s) != 0 <==> Lo(s) < e;
    }
    ResizeBytes(d1, n1, length);
    forall i | 0 <= i < length
      ensures Content(d1, n1.(size := length))[i] == Content(d0, n0)[i]
    {
      assert ByteAt(d1, n1.(size := length), i) == ByteAt(d1, n1, i);
    }
  }

  // File block f of file ino was freed, and no other file changed.
  ghost predicate FreedIn(disk: Disk, nodes: map<nat, Inode>, disk': Disk, nodes': map<nat, Inode>, ino: nat, f: nat) {
    && nodes'.Keys == nodes.Keys
    && (forall i :: i in nodes && i != ino ==> SameFile(disk, nodes[i], disk', nodes'[i]))
    && OthersKept(disk, nodes, disk', nodes', ino)
    && (ino in nodes ==> Freed(disk, nodes[ino], disk', nodes'[ino], f))
  }

  lemma AddrIs(disk: Disk, n: Inode, k: nat)
    requires k < |n.addrs|
    ensures Ptr(disk, n, Addr(k)) == n.addrs[k]
  {
  }

  lemma IndirectBounds(g: Geometry, disk: Disk, nodes: map<nat, Inode>, owner: map<nat, Loc>, ino: nat, s: Slot)
    requires Inv(g, disk, nodes, owner) && ino in nodes && ValidSlot(s)
    ensures Ptr(disk, nodes[ino], s) == 0 || g.meta <= Ptr(disk, nodes[ino], s) < |disk|
  {
    if Ptr(disk, nodes[ino], s) != 0 {
      PointerOwns(g, disk, nodes, owner, ino, s);
    }
  }

  // A pointer that is set hangs below pointers that are set.
  lemma PtrChain(disk: Disk, n: Inode, s: Slot)
    requires ValidSlot(s)
    ensures Ptr(disk, n, s) != 0 && !s.Addr? ==> Ptr(disk, n, Parent(s)) != 0
    ensures Ptr(disk, n, s) != 0 && s.Dind? ==> Ptr(disk, n, Addr(DIND_IDX)) != 0
  {
  }

  lemma BeyondFreed(disk: Disk, nodes: map<nat, Inode>, ino: nat, f: nat)
    requires ino in nodes && f >= MAX_BLOCKS
    ensures !Missing(disk, nodes[ino], f) && FreedIn(disk, nodes, disk, nodes, ino, f)
  {
    hide Ptr, Empty;
    OthersRefl(disk, nodes, ino);
  }

  lemma DirectFreed(disk: Disk, nodes: map<nat, Inode>, disk': Disk, nodes': map<nat, Inode>, ino: nat, f: nat)
    requires ino in nodes && f < NUM_DIRECT
    requires if Ptr(disk, nodes[ino], Addr(f)) != 0 then
               && PtrsExcept(disk, nodes, disk', nodes', Loc(ino, Addr(f)), 0)
               && BytesExcept(disk, nodes, disk', nodes', ino, f)
             else disk' == disk && nodes' == nodes
    ensures FreedIn(disk, nodes, disk', nodes', ino, f)
  {
    hide Ptr, Empty, ByteAt, OthersKept;
    if Ptr(disk, nodes[ino], Addr(f)) != 0 {
      PtrsOthers(disk, nodes, disk', nodes', Loc(ino, Addr(f)), 0);
    } else {
      OthersRefl(disk, nodes, ino);
    }
    forall s | ValidSlot(s) ensures FreedSlot(disk, nodes[ino], disk', nodes'[ino], s, f) {
      ServedBy(s, f);
    }
  }

  lemma OthersSame(d0: Disk, n0: map<nat, Inode>, d1: Disk, n1: map<nat, Inode>, d2: Disk, n2: map<nat, Inode>,
                   ino: nat, f: nat)
    requires BytesExcept(d0, n0, d1, n1, ino, f) && SameBytes(d1, n1, d2, n2)
    ensures BytesExcept(d0, n0, d2, n2, ino, f)
  {
    hide ByteAt;
    forall i | i in n0 ensures SameFile(d1, n1[i], d2, n2[i]) {
    }
  }

  lemma SindFreed(d0: Disk, n0: map<nat, Inode>, d1: Disk, n1: map<nat, Inode>, d2: Disk, n2: map<nat, Inode>,
                  ino: nat, f: nat)
    requires ino in n0 && NUM_DIRECT <= f < DIND_BASE
    requires PtrsExcept(d0, n0, d1, n1, Loc(ino, DataSlot(f)), 0) && BytesExcept(d0, n0, d1, n1, ino, f)
    requires PtrsExcept(d1, n1, d2, n2, Loc(ino, Addr(SIND_IDX)),
                        if Empty(d1, n1[ino], Addr(SIND_IDX)) then 0 else Ptr(d1, n1[ino], Addr(SIND_IDX)))
    requires SameBytes(d1, n1, d2, n2)
    ensures FreedIn(d0, n0, d2, n2, ino, f)
  {
    hide Ptr, ByteAt, OthersKept;
    var v := if Empty(d1, n1[ino], Addr(SIND_IDX)) then 0 else Ptr(d1, n1[ino], Addr(SIND_IDX));
    PtrsOthers(d0, n0, d1, n1, Loc(ino, DataSlot(f)), 0);
    PtrsOthers(d1, n1, d2, n2, Loc(ino, Addr(SIND_IDX)), v);
    OthersTrans(d0, n0, d1, n1, d2, n2, ino);
    OthersSame(d0, n0, d1, n1, d2, n2, ino, f);
    EmptySame(d1, n1, d2, n2, ino, Addr(SIND_IDX), Addr(SIND_IDX), v);
    forall s | ValidSlot(s) ensures FreedSlot(d0, n0[ino], d2, n2[ino], s, f) {
      ServedBy(s, f);
    }
  }

  // Changing pointer a leaves the children of b as they are, unless a is one of them.
  lemma EmptySame(d1: Disk, n1: map<nat, Inode>, d2: Disk, n2: map<nat, Inode>, ino: nat, a: Slot, b: Slot, v: nat)
    requires ino in n1 && PtrsExcept(d1, n1, d2, n2, Loc(ino, a), v)
    requires a.Addr? || Parent(a) != b
    ensures Empty(d2, n2[ino], b) == Empty(d1, n1[ino], b)
  {
    hide Ptr;
  }

  lemma DindFreed(d0: Disk, n0: map<nat, Inode>, d1: Disk, d2: Disk, d3: Disk, n3: map<nat, Inode>, ino: nat, f: nat)
    requires ino in n0 && DIND_BASE <= f < MAX_BLOCKS
    requires PtrsExcept(d0, n0, d1, n0, Loc(ino, DataSlot(f)), 0) && BytesExcept(d0, n0, d1, n0, ino, f)
    requires var mid := Mid((f - DIND_BASE) / NUM_SIND);
             PtrsExcept(d1, n0, d2, n0, Loc(ino, mid), if Empty(d1, n0[ino], mid) then 0 else Ptr(d1, n0[ino], mid))
    requires SameBytes(d1, n0, d2, n0)
    requires PtrsExcept(d2, n0, d3, n3, Loc(ino, Addr(DIND_IDX)),
                        if Empty(d2, n0[ino], Addr(DIND_IDX)) then 0 else Ptr(d2, n0[ino], Addr(DIND_IDX)))
    requires SameBytes(d2, n0, d3, n3)
    ensures FreedIn(d0, n0, d3, n3, ino, f)
  {
    hide Ptr, ByteAt, OthersKept;
    var mid := Mid((f - DIND_BASE) / NUM_SIND);
    DindOthers(d0, n0, d1, d2, d3, n3, ino, f);
    OthersSame(d0, n0, d1, n0, d2, n0, ino, f);
    OthersSame(d0, n0, d2, n0, d3, n3, ino, f);
    EmptySame(d1, n0, d2, n0, ino, mid, mid, if Empty(d1, n0[ino], mid) then 0 else Ptr(d1, n0[ino], mid));
    var v := if Empty(d2, n0[ino], Addr(DIND_IDX)) then 0 else Ptr(d2, n0[ino], Addr(DIND_IDX));
    EmptySame(d2, n0, d3, n3, ino, Addr(DIND_IDX), mid, v);
    EmptySame(d2, n0, d3, n3, ino, Addr(DIND_IDX), Addr(DIND_IDX), v);
    forall s | ValidSlot(s) ensures FreedSlot(d0, n0[ino], d3, n3[ino], s, f) {
      ServedBy(s, f);
    }
  }

  lemma DindOthers(d0: Disk, n0: map<nat, Inode>, d1: Disk, d2: Disk, d3: Disk, n3: map<nat, Inode>, ino: nat, f: nat)
    requires ino in n0 && DIND_BASE <= f < MAX_BLOCKS
    requires PtrsExcept(d0, n0, d1, n0, Loc(ino, DataSlot(f)), 0)
    requires var mid := Mid((f - DIND_BASE) / NUM_SIND);
             PtrsExcept(d1, n0, d2, n0, Loc(ino, mid), if Empty(d1, n0[ino], mid) then 0 else Ptr(d1, n0[ino], mid))
    requires PtrsExcept(d2, n0, d3, n3, Loc(ino, Addr(DIND_IDX)),
                        if Empty(d2, n0[ino], Addr(DIND_IDX)) then 0 else Ptr(d2, n0[ino], Addr(DIND_IDX)))
    ensures OthersKept(d0, n0, d3, n3, ino)
  {
    hide Ptr, OthersKept, PtrsExcept, Empty;
    var mid := Mid((f - DIND_BASE) / NUM_SIND);
    PtrsOthers(d0, n0, d1, n0, Loc(ino, DataSlot(f)), 0);
    PtrsOthers(d1, n0, d2, n0, Loc(ino, mid), if Empty(d1, n0[ino], mid) then 0 else Ptr(d1, n0[ino], mid));
    PtrsOthers(d2, n0, d3, n3, Loc(ino, Addr(DIND_IDX)),
               if Empty(d2, n0[ino], Addr(DIND_IDX)) then 0 else Ptr(d2, n0[ino], Addr(DIND_IDX)));
    OthersTrans(d0, n0, d1, n0, d2, n0, ino);
    OthersTrans(d0, n0, d2, n0, d3, n3, ino);
  }

  // File block f lies past the direct range and has no disk block.
  predicate Missing(disk: Disk, n: Inode, f: nat) {
    NUM_DIRECT <= f < MAX_BLOCKS && Ptr(disk, n, DataSlot(f)) == 0
  }

  lemma EmptyWords(disk: Disk, n: Inode, s: Slot)
    requires ValidSlot(s) && !IsData(s) && 0 < Ptr(disk, n, s) < |disk|
    ensures Empty(disk, n, s) <==> forall i: nat :: i < WORDS ==> Word(disk[Ptr(disk, n, s)], i) == 0
  {
    hide Ptr;
    forall i: nat | i < WORDS
      ensures exists t :: ValidSlot(t) && !t.Addr? && Parent(t) == s && Ptr(disk, n, t) == Word(disk[Ptr(disk, n, s)], i)
    {
      var t := match s
        case Addr(k) => if k == SIND_IDX then Sind(i) else Mid(i)
        case Mid(m) => Dind(m, i);
      PtrIsWord(disk, n, t);
    }
    forall t | ValidSlot(t) && !t.Addr? && Parent(t) == s
      ensures Index(t) < WORDS && Ptr(disk, n, t) == Word(disk[Ptr(disk, n, s)], Index(t))
    {
      PtrIsWord(disk, n, t);
    }
  }

  // A pointer that is set is kept in a block that is there.
  lemma PtrHolder(disk: Disk, n: Inode, s: Slot)
    requires ValidSlot(s) && !s.Addr? ==> Ptr(disk, n, s) != 0
    ensures ValidSlot(s) && !s.Addr? ==> Holder(disk, n, s) != 0
  {
  }

  // All files keep their size and every byte outside block f of file ino.
  ghost predicate BytesExcept(disk: Disk, nodes: map<nat, Inode>, disk': Disk, nodes': map<nat, Inode>, ino: nat, f: nat) {
    && nodes'.Keys == nodes.Keys
    && (forall i :: i in nodes ==> nodes'[i].size == nodes[i].size)
    && (forall i, k: nat :: i in nodes && (i != ino || k / BLOCK_SIZE != f) ==>
                              ByteAt(disk', nodes'[i], k) == ByteAt(disk, nodes[i], k))
  }

  lemma GiveBytes(g: Geometry, disk: Disk, nodes: map<nat, Inode>, owner: map<nat, Loc>, at: Loc,
                  disk': Disk, nodes': map<nat, Inode>)
    requires CanGive(g, disk, nodes, owner, at) && Ptr(disk, nodes[at.ino], at.slot) < |disk|
    requires disk' == GiveDisk(g, disk, Ptr(disk, nodes[at.ino], at.slot), Holder(disk, nodes[at.ino], at.slot), at.slot)
    requires nodes' == nodes[at.ino := SetPtrNode(nodes[at.ino], at.slot, 0)]
    ensures BytesExcept(disk, nodes, disk', nodes', at.ino, Lo(at.slot))
    ensures !IsData(at.slot) ==> SameBytes(disk, nodes, disk', nodes')
  {
    hide Ptr, ByteAt, GiveDisk, OwnersPoint, PointersOwn, MarkedIffOwned;
    forall i, k: nat | i in nodes && (i != at.ino || !IsData(at.slot) || k / BLOCK_SIZE != Lo(at.slot))
      ensures ByteAt(disk', nodes'[i], k) == ByteAt(disk, nodes[i], k)
    {
      GiveByte(g, disk, nodes, owner, at, disk', nodes', i, k);
    }
  }

  lemma PtrIsWord(disk: Disk, n: Inode, s: Slot)
    requires ValidSlot(s) && !s.Addr?
    ensures Ptr(disk, n, s) == WordAt(disk, Holder(disk, n, s), Index(s))
  {
  }

  // A data block given back: its word cleared, then its bit.
  lemma FreedData(g: Geometry, d0: Disk, nodes: map<nat, Inode>, owner: map<nat, Loc>, ino: nat, s: Slot, h: nat, b: nat,
                  d1: Disk, d2: Disk)
    requires Inv(g, d0, nodes, owner) && ino in nodes && ValidSlot(s) && IsData(s) && !s.Addr?
    requires b == Ptr(d0, nodes[ino], s) && b != 0 && h == Holder(d0, nodes[ino], s) && g.meta <= h < |d0| && b < |d0|
    requires d1 == d0[h := WithWord(d0[h], Index(s), 0)] && d2 == Mark(g, d1, b, false)
    ensures Inv(g, d2, nodes, owner - {b})
    ensures PtrsExcept(d0, nodes, d2, nodes, Loc(ino, s), 0) && BytesExcept(d0, nodes, d2, nodes, ino, Lo(s))
  {
    hide Ptr, Bit, WithBit, WithWord, ByteAt, OwnersPoint, PointersOwn, MarkedIffOwned, Used, PtrsExcept, BytesExcept;
    MarkCommutes(g, d0, b, h, d1[h], false);
    assert d2 == GiveDisk(g, d0, b, h, s);
    assert CanGive(g, d0, nodes, owner, Loc(ino, s));
    assert nodes == nodes[ino := SetPtrNode(nodes[ino], s, 0)];
    GiveInv(g, d0, nodes, owner, b, Loc(ino, s), d2, nodes);
    GiveBytes(g, d0, nodes, owner, Loc(ino, s), d2, nodes);
  }

  lemma MarkCommutes(g: Geometry, disk: Disk, b: nat, h: nat, v: Block, x: bool)
    requires ValidGeometry(g) && |disk| == Capacity(g) && b < |disk| && g.meta <= h < |disk|
    ensures Mark(g, disk[h := v], b, x) == Mark(g, disk, b, x)[h := v]
  {
  }

  lemma UsedElsewhere(g: Geometry, disk: Disk, h: nat, v: Block, c: nat)
    requires ValidGeometry(g) && |disk| == Capacity(g) && c < |disk| && h < |disk|
    requires h == 0 || g.meta <= h
    ensures Used(g, disk[h := v], c) == Used(g, disk, c)
  {
    hide Bit;
    assert 0 < g.bitmapStart + c / BITS < g.meta;
  }

  // Clearing a word that is already zero, and bit 0 of the bitmap, moves no pointer.
  lemma SpoilPtrs(g: Geometry, disk: Disk, nodes: map<nat, Inode>, owner: map<nat, Loc>, h: nat, i: nat, disk': Disk)
    requires Inv(g, disk, nodes, owner) && i < WORDS && (h == 0 || g.meta <= h < |disk|) && Word(disk[h], i) == 0
    requires disk' == Mark(g, disk[h := WithWord(disk[h], i, 0)], 0, false)
    ensures !Used(g, disk', 0) && PtrsSame(disk, disk', nodes)
  {
    hide Ptr, Bit, WithBit, WithWord, OwnersPoint, PointersOwn, MarkedIffOwned, Used;
    UsedAfterMark(g, disk[h := WithWord(disk[h], i, 0)], 0, false, 0);
    forall ino, s | ino in nodes && ValidSlot(s) ensures Ptr(disk', nodes[ino], s) == Ptr(disk, nodes[ino], s) {
      SpoilPtr(g, disk, nodes, owner, h, i, disk', ino, s);
    }
  }

  lemma {:induction false} SpoilPtr(g: Geometry, disk: Disk, nodes: map<nat, Inode>, owner: map<nat, Loc>,
                                    h: nat, i: nat, disk': Disk, ino: nat, s: Slot)
    requires Inv(g, disk, nodes, owner) && i < WORDS && (h == 0 || g.meta <= h < |disk|) && Word(disk[h], i) == 0
    requires disk' == Mark(g, disk[h := WithWord(disk[h], i, 0)], 0, false)
    requires ino in nodes && ValidSlot(s)
    ensures Ptr(disk', nodes[ino], s) == Ptr(disk, nodes[ino], s)
    decreases if s.Addr? then 0 else if s.Dind? then 2 else 1
  {
    hide Ptr, Bit, WithBit, WithWord, OwnersPoint, PointersOwn, MarkedIffOwned, Used;
    if s.Addr? {
      AddrPtr(disk, disk', nodes[ino], s);
    } else {
      SpoilPtr(g, disk, nodes, owner, h, i, disk', ino, Parent(s));
      PtrIsWord(disk, nodes[ino], s);
      PtrIsWord(disk', nodes[ino], s);
      var q := Holder(disk, nodes[ino], s);
      if q != 0 {
        PointerOwns(g, disk, nodes, owner, ino, Parent(s));
        WordOfWithWord(disk[h], i, 0, Index(s));
      }
    }
  }

  lemma AddrPtr(disk: Disk, disk': Disk, n: Inode, s: Slot)
    requires s.Addr?
    ensures Ptr(disk', n, s) == Ptr(disk, n, s)
  {
  }

  predicate Refused(size: nat, offset: nat, len: nat) {
    offset > size || (offset + len) % WORD_LIMIT > WRITE_LIMIT
  }

  function Splice(s: seq<byte>, offset: nat, buffer: seq<byte>): (r: seq<byte>)
    requires offset <= |s|
  {
    s[..offset] + buffer + s[Min(offset + |buffer|, |s|)..]
  }

  // The bytes of n' are those of n with `written` laid over them at offset.
  ghost predicate Overlaid(disk: Disk, n: Inode, disk': Disk, n': Inode, offset: nat, written: seq<byte>) {
    forall i: nat :: ByteAt(disk', n', i) ==
                       if offset <= i < offset + |written| then written[i - offset] else ByteAt(disk, n, i)
  }

  // Bytes lo .. hi of a file.
  function Bytes(disk: Disk, n: Inode, lo: nat, hi: nat): (s: seq<byte>)
    requires lo <= hi
    ensures |s| == hi - lo
  {
    seq<byte>(hi - lo, i requires 0 <= i => ByteAt(disk, n, lo + i))
  }

  // A dense file has a block for every byte below its size.
  lemma StillWithin(off: nat, size: nat)
    requires off <= size
    ensures Blocks(off) <= Blocks(size)
  {
  }

  lemma DenseMapped(disk: Disk, n: Inode, off: nat, size: nat)
    requires Dense(disk, n, Blocks(size)) && off < size <= MAX_BLOCKS * BLOCK_SIZE
    ensures off / BLOCK_SIZE < MAX_BLOCKS && Ptr(disk, n, DataSlot(off / BLOCK_SIZE)) != 0
  {
    hide Ptr;
  }

  lemma ReadChunk(disk: Disk, n: Inode, off: nat, len: nat, chunk: seq<byte>)
    requires len <= BLOCK_SIZE - off % BLOCK_SIZE
    requires off / BLOCK_SIZE < MAX_BLOCKS && 0 < Ptr(disk, n, DataSlot(off / BLOCK_SIZE)) < |disk|
    requires chunk == disk[Ptr(disk, n, DataSlot(off / BLOCK_SIZE))][off % BLOCK_SIZE..off % BLOCK_SIZE + len]
    ensures chunk == Bytes(disk, n, off, off + len)
  {
    hide Ptr;
    forall k | 0 <= k < len ensures chunk[k] == ByteAt(disk, n, off + k) {
      SameBlock(off, k);
    }
  }

  // Bytes of a file that did not change, in two pieces.
  lemma SameBytesOf(d0: Disk, n0: map<nat, Inode>, d1: Disk, n1: map<nat, Inode>, ino: nat, lo: nat, mid: nat, hi: nat)
    requires SameBytes(d0, n0, d1, n1) && ino in n0 && lo <= mid <= hi
    ensures Bytes(d0, n0[ino], lo, hi) == Bytes(d0, n0[ino], lo, mid) + Bytes(d1, n1[ino], mid, hi)
  {
    hide ByteAt;
    assert SameFile(d0, n0[ino], d1, n1[ino]);
  }

  lemma OverlaidRefl(disk: Disk, n: Inode, offset: nat, buffer: seq<byte>)
    ensures Overlaid(disk, n, disk, n, offset, buffer[..0])
  {
  }

  lemma OverlaidTrans(d0: Disk, n0: Inode, d1: Disk, n1: Inode, d2: Disk, n2: Inode,
                      offset: nat, buffer: seq<byte>, total: nat, len: nat)
    requires total + len <= |buffer|
    requires Overlaid(d0, n0, d1, n1, offset, buffer[..total])
    requires Overlaid(d1, n1, d2, n2, offset + total, buffer[total..total + len])
    ensures Overlaid(d0, n0, d2, n2, offset, buffer[..total + len])
  {
    forall i: nat ensures ByteAt(d2, n2, i) ==
        if offset <= i < offset + total + len then buffer[..total + len][i - offset] else ByteAt(d0, n0, i)
    {
      assert ByteAt(d1, n1, i) == if offset <= i < offset + total then buffer[..total][i - offset] else ByteAt(d0, n0, i);
    }
  }

  lemma PokeOther(g: Geometry, d0: Disk, n0: map<nat, Inode>, d1: Disk, n1: map<nat, Inode>, owner: map<nat, Loc>,
                  at: Loc, v: Block, ino: nat)
    requires SameBytes(d0, n0, d1, n1) && Inv(g, d1, n1, owner)
    requires at.ino in n1 && ValidSlot(at.slot) && IsData(at.slot) && 0 != Ptr(d1, n1[at.ino], at.slot) < |d1|
    requires ino in n1 && ino != at.ino
    ensures SameFile(d0, n0[ino], d1[Ptr(d1, n1[at.ino], at.slot) := v], n1[ino])
  {
    hide Ptr, Used, OwnersPoint, PointersOwn, MarkedIffOwned, ByteAt;
    assert SameFile(d0, n0[ino], d1, n1[ino]);
    forall i: nat ensures ByteAt(d1[Ptr(d1, n1[at.ino], at.slot) := v], n1[ino], i) == ByteAt(d0, n0[ino], i) {
      PokeByte(g, d1, n1, owner, at, v, ino, i);
    }
  }

  // Byte i of the file in a block that had a chunk copied into it.
  lemma ChunkByte(b: Block, v: Block, off: nat, chunk: seq<byte>, i: nat)
    requires |chunk| <= BLOCK_SIZE - off % BLOCK_SIZE
    requires v == b[..off % BLOCK_SIZE] + chunk + b[off % BLOCK_SIZE + |chunk|..]
    ensures off <= i < off + |chunk| ==> i / BLOCK_SIZE == off / BLOCK_SIZE && v[i % BLOCK_SIZE] == chunk[i - off]
    ensures !(off <= i < off + |chunk|) && i / BLOCK_SIZE == off / BLOCK_SIZE ==> v[i % BLOCK_SIZE] == b[i % BLOCK_SIZE]
  {
    if off <= i < off + |chunk| {
      SameBlock(off, i - off);
    } else if i / BLOCK_SIZE == off / BLOCK_SIZE {
      assert i - off == i % BLOCK_SIZE - off % BLOCK_SIZE;
    }
  }

  lemma PokeOverlaid(g: Geometry, d0: Disk, n0: map<nat, Inode>, d1: Disk, n1: map<nat, Inode>, owner: map<nat, Loc>,
                     at: Loc, p: nat, v: Block, off: nat, chunk: seq<byte>, d2: Disk)
    requires SameBytes(d0, n0, d1, n1) && Inv(g, d1, n1, owner)
    requires off / BLOCK_SIZE < MAX_BLOCKS && at.slot == DataSlot(off / BLOCK_SIZE)
    requires at.ino in n1 && p == Ptr(d1, n1[at.ino], at.slot) && 0 < p < |d1|
    requires |chunk| <= BLOCK_SIZE - off % BLOCK_SIZE
    requires v == d1[p][..off % BLOCK_SIZE] + chunk + d1[p][off % BLOCK_SIZE + |chunk|..]
    requires d2 == d1[p := v]
    ensures Overlaid(d0, n0[at.ino], d2, n1[at.ino], off, chunk)
  {
    hide Ptr, Used, Inv;
    assert SameFile(d0, n0[at.ino], d1, n1[at.ino]);
    forall i: nat ensures ByteAt(d2, n1[at.ino], i) ==
        if off <= i < off + |chunk| then chunk[i - off] else ByteAt(d0, n0[at.ino], i)
    {
      PokeByte(g, d1, n1, owner, at, v, at.ino, i);
      ChunkByte(d1[p], v, off, chunk, i);
      if i / BLOCK_SIZE == off / BLOCK_SIZE {
        assert ByteAt(d1, n1[at.ino], i) == d1[p][i % BLOCK_SIZE];
      }
    }
  }

  lemma SpliceOverlaid(d0: Disk, n0: Inode, d1: Disk, n1: Inode, offset: nat, buffer: seq<byte>)
    requires Overlaid(d0, n0, d1, n1, offset, buffer)
    requires n1.size == n0.size && offset <= n0.size
    ensures var z := if offset + |buffer| > n1.size then offset + |buffer| else n1.size;
            Content(d1, n1.(size := z)) == Splice(Content(d0, n0), offset, buffer)
  {
    var z := if offset + |buffer| > n1.size then offset + |buffer| else n1.size;
    var c, sp := Content(d1, n1.(size := z)), Splice(Content(d0, n0), offset, buffer);
    ResizeBytes(d1, n1, z);
    assert |sp| == z;
    forall i | 0 <= i < z ensures c[i] == sp[i] {
      assert ByteAt(d1, n1.(size := z), i) == ByteAt(d1, n1, i);
    }
  }

  /** Writing a chunk at or below the end of a dense file leaves it dense up to the chunk's end. */
  lemma WriteDense(d0: Disk, n0: map<nat, Inode>, d1: Disk, n1: map<nat, Inode>, ino: nat, off: nat, len: nat, e0: nat)
    requires Grown(d0, n0, d1, n1, ino, off / BLOCK_SIZE) && ino in n0
    requires 0 < len <= BLOCK_SIZE - off % BLOCK_SIZE && off / BLOCK_SIZE < MAX_BLOCKS
    requires off / BLOCK_SIZE <= if Blocks(off) <= e0 then e0 else Blocks(off)
    requires Dense(d0, n0[ino], if Blocks(off) <= e0 then e0 else Blocks(off))
    requires forall s :: ValidSlot(s) && Serves(s, off / BLOCK_SIZE) ==> Ptr(d1, n1[ino], s) != 0
    ensures Dense(d1, n1[ino], if Blocks(off + len) <= e0 then e0 else Blocks(off + len))
  {
    hide Ptr, Serves, Dense;
    GrownDense(d0, n0, d1, n1, ino, off / BLOCK_SIZE, if Blocks(off) <= e0 then e0 else Blocks(off));
  }

  // A file that was being extended to e blocks: nothing is filled past them, and not all of them are.
  ghost predicate Short(disk: Disk, n: Inode, e: nat) {
    && (forall s :: ValidSlot(s) && Ptr(disk, n, s) != 0 ==> Lo(s) < e)
    && (exists s :: ValidSlot(s) && Lo(s) < e && Ptr(disk, n, s) == 0)
  }

  /** A write that finds no block at off has filled only part of what it needs. */
  lemma WriteShort(d0: Disk, n0: map<nat, Inode>, d1: Disk, n1: map<nat, Inode>, ino: nat, off: nat, e: nat, end: nat)
    requires Grown(d0, n0, d1, n1, ino, off / BLOCK_SIZE) && ino in n0 && Dense(d0, n0[ino], e)
    requires off < end && off / BLOCK_SIZE < MAX_BLOCKS && Ptr(d1, n1[ino], DataSlot(off / BLOCK_SIZE)) == 0
    ensures Short(d1, n1[ino], Blocks(end))
  {
    hide Ptr;
    var f := off / BLOCK_SIZE;
    assert f < Blocks(end);
    assert GrownFile(d0, n0[ino], d1, n1[ino], true, f);
    assert KeptOrFilled(d0, n0[ino], d1, n1[ino], DataSlot(f), true, f);
    assert Ptr(d0, n0[ino], DataSlot(f)) != 0 <==> Lo(DataSlot(f)) < e;
    forall s | ValidSlot(s) && Ptr(d1, n1[ino], s) != 0 ensures Lo(s) < Blocks(end) {
      assert KeptOrFilled(d0, n0[ino], d1, n1[ino], s, true, f);
      assert Ptr(d0, n0[ino], s) != 0 <==> Lo(s) < e;
    }
  }

  lemma SizeBound(g: Geometry, disk: Disk, nodes: map<nat, Inode>, owner: map<nat, Loc>, ino: nat)
    requires Inv(g, disk, nodes, owner) && ino in nodes
    ensures nodes[ino].size <= MAX_BLOCKS * BLOCK_SIZE
  {
  }

  lemma BytesNone(disk: Disk, n: Inode, lo: nat)
    ensures Bytes(disk, n, lo, lo) == []
  {
  }

  lemma ContentSlice(disk: Disk, n: Inode, lo: nat, hi: nat)
    requires lo <= hi <= n.size
    ensures Content(disk, n)[lo..hi] == Bytes(disk, n, lo, hi)
  {
    hide ByteAt;
  }

  lemma FreeUnowned(g: Geometry, disk: Disk, nodes: map<nat, Inode>, owner: map<nat, Loc>, b: nat)
    requires ValidGeometry(g) && |disk| == Capacity(g) && MarkedIffOwned(g, disk, owner)
    requires g.meta <= b < Capacity(g) && !Used(g, disk, b)
    ensures b !in owner
  {
    hide Used;
  }

  lemma AllSame(disk: Disk, nodes: map<nat, Inode>, ino: nat)
    ensures forall i :: i in nodes && i != ino ==> SameFile(disk, nodes[i], disk, nodes[i])
  {
  }

  lemma SameContent(d0: Disk, n0: map<nat, Inode>, d1: Disk, n1: map<nat, Inode>, ino: nat)
    requires SameBytes(d0, n0, d1, n1) && ino in n0
    ensures Content(d1, n1[ino]) == Content(d0, n0[ino]) && n1[ino].size == n0[ino].size
  {
    hide ByteAt;
    assert SameFile(d0, n0[ino], d1, n1[ino]);
  }

  lemma SameFileTrans(d0: Disk, n0: Inode, d1: Disk, n1: Inode, d2: Disk, n2: Inode)
    requires SameFile(d0, n0, d1, n1) && SameFile(d1, n1, d2, n2)
    ensures SameFile(d0, n0, d2, n2)
  {
    forall i: nat ensures ByteAt(d2, n2, i) == ByteAt(d0, n0, i) {
      assert ByteAt(d1, n1, i) == ByteAt(d0, n0, i);
    }
  }

  lemma SameBlock(off: nat, k: nat)
    requires k < BLOCK_SIZE - off % BLOCK_SIZE
    ensures (off + k) / BLOCK_SIZE == off / BLOCK_SIZE && (off + k) % BLOCK_SIZE == off % BLOCK_SIZE + k
  {
    assert off == off / BLOCK_SIZE * BLOCK_SIZE + off % BLOCK_SIZE;
  }
}
