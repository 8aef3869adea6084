/**
The image builder: it hands out blocks from a counter, appends files through the
same direct and indirect pointers as the kernel, and writes the free bitmap once,
at the end. The finished image satisfies the kernel's ownership invariant.
*/
module Mkcofs {
  import opened Block
  import opened CofsLayout
  import opened Cofs
  import opened CofsDir

  const NUM_INOPB := 8
  const ROOT_INODE := 1

  datatype Exit = TooLarge | OutOfBounds | NoSectors | BitmapFull

  datatype Outcome = Done | Exited(why: Exit)

  // Layout that main() computes for an image of `size` blocks; the product is a 32-bit one.
  function Layout(size: nat): (g: Geometry)
    ensures 5 <= size && size + BITS <= WORD_LIMIT ==> ValidGeometry(g)
    ensures g.size == size
  {
    var numInodes := size * BLOCK_SIZE % WORD_LIMIT / 4096;
    var bitmapSize := size / BITS + 1;
    var inodesSize := numInodes / NUM_INOPB + 1;
    Geometry(size, 2, 2 + inodesSize + bitmapSize)
  }

  // The two disks agree outside the bitmap and inode blocks.
  ghost predicate Agree(g: Geometry, disk: Disk, marked: Disk) {
    && |disk| == |marked|
    && forall p :: 0 <= p < |disk| && (p == 0 || g.meta <= p) ==> disk[p] == marked[p]
  }

  lemma AgreeWord(g: Geometry, disk: Disk, marked: Disk, p: nat, i: nat)
    requires Agree(g, disk, marked) && (p == 0 || g.meta <= p)
    ensures WordAt(disk, p, i) == WordAt(marked, p, i)
  {
  }

  lemma {:induction false} AgreePtr(g: Geometry, disk: Disk, marked: Disk, nodes: map<nat, Inode>, owner: map<nat, Loc>,
                                    ino: nat, s: Slot)
    requires Inv(g, marked, nodes, owner) && Agree(g, disk, marked) && ino in nodes && ValidSlot(s)
    ensures Ptr(disk, nodes[ino], s) == Ptr(marked, nodes[ino], s)
    decreases if s.Addr? then 0 else if s.Dind? then 2 else 1
  {
    hide Ptr, OwnersPoint, PointersOwn, MarkedIffOwned, Used, WordAt;
    if s.Addr? {
      AddrPtr(marked, disk, nodes[ino], s);
    } else {
      AgreePtr(g, disk, marked, nodes, owner, ino, Parent(s));
      PtrIsWord(disk, nodes[ino], s);
      PtrIsWord(marked, nodes[ino], s);
      IndirectBounds(g, marked, nodes, owner, ino, Parent(s));
      AgreeWord(g, disk, marked, Holder(marked, nodes[ino], s), Index(s));
    }
  }

  lemma AgreeByte(g: Geometry, disk: Disk, marked: Disk, nodes: map<nat, Inode>, owner: map<nat, Loc>, ino: nat, i: nat)
    requires Inv(g, marked, nodes, owner) && Agree(g, disk, marked) && ino in nodes
    ensures ByteAt(disk, nodes[ino], i) == ByteAt(marked, nodes[ino], i)
  {
    hide Ptr, Inv, Used;
    if i / BLOCK_SIZE < MAX_BLOCKS {
      AgreePtr(g, disk, marked, nodes, owner, ino, DataSlot(i / BLOCK_SIZE));
      IndirectBounds(g, marked, nodes, owner, ino, DataSlot(i / BLOCK_SIZE));
    }
  }

  /** A disk whose bitmap says what `marked` says, and which agrees with it elsewhere, satisfies the invariant too. */
  lemma AgreeInv(g: Geometry, disk: Disk, marked: Disk, nodes: map<nat, Inode>, owner: map<nat, Loc>)
    requires Inv(g, marked, nodes, owner) && Agree(g, disk, marked)
    requires forall b: nat :: b < Capacity(g) ==> Used(g, disk, b) == Used(g, marked, b)
    ensures Inv(g, disk, nodes, owner)
    ensures forall ino :: ino in nodes ==> Content(disk, nodes[ino]) == Content(marked, nodes[ino])
  {
    hide Ptr, Used, OwnersPoint, PointersOwn, ByteAt;
    forall ino, s | ino in nodes && ValidSlot(s) ensures Ptr(disk, nodes[ino], s) == Ptr(marked, nodes[ino], s) {
      AgreePtr(g, disk, marked, nodes, owner, ino, s);
    }
    SamePtrsOwn(g, marked, disk, nodes, owner);
    forall ino | ino in nodes ensures Content(disk, nodes[ino]) == Content(marked, nodes[ino]) {
      forall i: nat ensures ByteAt(disk, nodes[ino], i) == ByteAt(marked, nodes[ino], i) {
        AgreeByte(g, disk, marked, nodes, owner, ino, i);
      }
    }
  }

  const EMPTY_ADDRS: seq<nat> := [0, 0, 0, 0, 0, 0, 0, 0, 0]

  lemma EmptyNode(disk: Disk, s: Slot)
    requires ValidSlot(s)
    ensures Ptr(disk, Inode(EMPTY_ADDRS, 0), s) == 0
  {
  }

  lemma NewNode(g: Geometry, disk: Disk, nodes: map<nat, Inode>, owner: map<nat, Loc>, ino: nat)
    requires Inv(g, disk, nodes, owner) && ino !in nodes
    ensures Inv(g, disk, nodes[ino := Inode(EMPTY_ADDRS, 0)], owner)
    ensures Dense(disk, Inode(EMPTY_ADDRS, 0), 0)
  {
    hide Ptr, Used;
    forall s | ValidSlot(s) ensures Ptr(disk, Inode(EMPTY_ADDRS, 0), s) == 0 {
      EmptyNode(disk, s);
    }
  }

  class Image {
    const g: Geometry
    var disk: Disk
    var nodes: map<nat, Inode>
    var freeBlock: nat
    var freeInode: nat
    // The disk as it would be with the bitmap already written.
    ghost var marked: Disk
    ghost var owner: map<nat, Loc>

    ghost predicate Valid()
      reads this
    {
      && Inv(g, marked, nodes, owner)
      && Agree(g, disk, marked)
      && g.meta <= freeBlock <= g.size
      && (forall b: nat :: b < Capacity(g) ==> (Used(g, marked, b) <==> b < freeBlock))
      && (forall b :: freeBlock <= b < |disk| ==> disk[b] == ZeroBlock())
      && (forall p :: g.bitmapStart <= p < g.bitmapStart + Capacity(g) / BITS ==> disk[p] == ZeroBlock())
      && (forall ino :: ino in nodes ==> ino < freeInode)
    }

    /** The zeroed image: nothing allocated but the blocks in front of the data area. */
    constructor (size: nat)
      requires ValidGeometry(Layout(size))
      ensures Valid() && g == Layout(size) && nodes == map[] && freeInode == 1
    {
      g := Layout(size);
      disk := seq(Capacity(Layout(size)), _ => ZeroBlock());
      nodes := map[];
      freeBlock := Layout(size).meta;
      freeInode := 1;
      marked := MarkUpTo(Layout(size), seq(Capacity(Layout(size)), _ => ZeroBlock()), Layout(size).meta);
      owner := map[];
      new;
      InitialUsed(g, disk);
    }

    method InodeAlloc() returns (inum: nat)
      requires Valid()
      modifies this
      ensures Valid() && disk == old(disk) && marked == old(marked) && freeBlock == old(freeBlock)
      ensures inum == old(freeInode) && inum !in old(nodes) && freeInode == inum + 1
      ensures nodes == old(nodes)[inum := Inode(EMPTY_ADDRS, 0)]
      ensures Dense(marked, nodes[inum], 0) && ZeroTail(marked, nodes[inum])
    {
      hide Used, OwnersPoint, PointersOwn, MarkedIffOwned, Dense;
      inum := freeInode;
      freeInode := freeInode + 1;
      NewNode(g, marked, nodes, owner, inum);
      AgreeEmpty(marked);
      nodes := nodes[inum := Inode(EMPTY_ADDRS, 0)];
    }

    // `if (slot == 0) slot = free_block++`; reading a sector past the end of the image ends the program.
    method Fill(ino: nat, s: Slot, ghost f: nat) returns (r: Outcome)
      requires Valid() && ino in nodes && ValidSlot(s) && Serves(s, f)
      requires s.Addr? || Holder(marked, nodes[ino], s) != 0
      modifies this
      ensures Valid() && freeInode == old(freeInode)
      ensures SameBytes(old(marked), old(nodes), marked, nodes)
      ensures Grown(old(marked), old(nodes), marked, nodes, ino, f)
      ensures r.Done? ==> Ptr(marked, nodes[ino], s) != 0
      ensures r.Exited? ==> r.why == NoSectors && freeBlock == g.size && Ptr(marked, nodes[ino], s) == 0
    {
      hide Ptr, Used, OwnersPoint, PointersOwn, MarkedIffOwned, ByteAt, Grown, WithWord, WithBit;
      SameBytesRefl(marked, nodes);
      GrownRefl(marked, nodes, ino, f);
      AgreePtr(g, disk, marked, nodes, owner, ino, s);
      if !s.Addr? {
        AgreePtr(g, disk, marked, nodes, owner, ino, Parent(s));
        PointerOwns(g, marked, nodes, owner, ino, Parent(s));
      }
      var p, h := Ptr(disk, nodes[ino], s), Holder(disk, nodes[ino], s);
      r := Done;
      if p == 0 {
        if freeBlock == g.size {
          return Exited(NoSectors);
        }
        TakeNext(ino, s, h, f);
      }
    }

    // `slot = free_block++` for an empty slot, kept in block h unless it is in the inode.
    method TakeNext(ino: nat, s: Slot, h: nat, ghost f: nat)
      requires Valid() && ino in nodes && ValidSlot(s) && Serves(s, f) && freeBlock < g.size
      requires Ptr(marked, nodes[ino], s) == 0 && h == Holder(marked, nodes[ino], s)
      requires s.Addr? || g.meta <= h < freeBlock
      modifies this
      ensures Valid() && freeInode == old(freeInode)
      ensures SameBytes(old(marked), old(nodes), marked, nodes)
      ensures Grown(old(marked), old(nodes), marked, nodes, ino, f)
      ensures Ptr(marked, nodes[ino], s) != 0
    {
      hide Ptr, Used, OwnersPoint, PointersOwn, MarkedIffOwned, ByteAt, Grown, WithWord, WithBit, SameBytes;
      var b := freeBlock;
      freeBlock := freeBlock + 1;
      ghost var at, m1, n1 := Loc(ino, s), marked, nodes;
      assert CanTake(g, m1, n1, owner, b, at);
      marked := SetPtrDisk(TakeBlock(g, m1, b), h, s, b);
      if s.Addr? {
        nodes := nodes[ino := nodes[ino].(addrs := nodes[ino].addrs[s.k := b])];
      } else {
        disk := disk[h := WithWord(disk[h], Index(s), b)];
      }
      TakeInv(g, m1, n1, owner, b, at, marked, nodes);
      TakeBytes(g, m1, n1, owner, b, at, marked, nodes);
      FilledGrown(m1, n1, marked, nodes, at, b, f);
      TakeAgree(g, old(disk), m1, b, h, s, disk, marked);
      owner := owner[b := at];
    }

    // Maps file block f, as the three ranges of inode_append do.
    method BlockFor(ino: nat, f: nat) returns (r: Outcome)
      requires Valid() && ino in nodes && f < MAX_BLOCKS
      modifies this
      ensures Valid() && freeInode == old(freeInode)
      ensures SameBytes(old(marked), old(nodes), marked, nodes)
      ensures Grown(old(marked), old(nodes), marked, nodes, ino, f)
      ensures r.Done? ==> forall s :: ValidSlot(s) && Serves(s, f) ==> Ptr(marked, nodes[ino], s) != 0
      ensures r.Exited? ==> r.why == NoSectors && freeBlock == g.size && Ptr(marked, nodes[ino], DataSlot(f)) == 0
    {
      hide Ptr, Used, Inv, ByteAt, Grown;
      var path := if f < NUM_DIRECT then [Addr(f)]
                  else if f < NUM_DIRECT + NUM_SIND then [Addr(SIND_IDX), Sind(f - NUM_DIRECT)]
                  else [Addr(DIND_IDX), Mid((f - NUM_DIRECT - NUM_SIND) / NUM_SIND), DataSlot(f)];
      SameBytesRefl(marked, nodes);
      GrownRefl(marked, nodes, ino, f);
      var k := 0;
      r := Done;
      while k < |path|
        invariant 0 <= k <= |path|
        invariant Valid() && freeInode == old(freeInode) && r.Done? && ino in nodes
        invariant SameBytes(old(marked), old(nodes), marked, nodes)
        invariant Grown(old(marked), old(nodes), marked, nodes, ino, f)
        invariant forall j :: 0 <= j < k ==> Ptr(marked, nodes[ino], path[j]) != 0
      {
        ghost var m1, n1 := marked, nodes;
        assert k > 0 ==> !path[k].Addr? && Parent(path[k]) == path[k - 1];
        r := Fill(ino, path[k], f);
        SameBytesTrans(old(marked), old(nodes), m1, n1, marked, nodes);
        GrownTrans(old(marked), old(nodes), m1, n1, marked, nodes, ino, f);
        if r.Exited? {
          UnmappedBelow(marked, nodes[ino], f, path[k]);
          return;
        }
        forall j | 0 <= j < k ensures Ptr(marked, nodes[ino], path[j]) != 0 {
          GrownKeeps(m1, n1, marked, nodes, ino, f, path[j]);
        }
        k := k + 1;
      }
      forall s | ValidSlot(s) && Serves(s, f) ensures Ptr(marked, nodes[ino], s) != 0 {
        ServedBy(s, f);
        if s == DataSlot(f) {
          assert s == path[|path| - 1];
        } else if s == Addr(SIND_IDX) || s == Addr(DIND_IDX) {
          assert s == path[0];
        } else {
          assert s == path[1];
        }
      }
    }

    // Copies a chunk into the block of the file block it falls in.
    method AppendBlock(ino: nat, off: nat, chunk: seq<byte>) returns (r: Outcome)
      requires Valid() && ino in nodes && off / BLOCK_SIZE < MAX_BLOCKS
      requires 0 < |chunk| <= BLOCK_SIZE - off % BLOCK_SIZE
      modifies this
      ensures Valid() && freeInode == old(freeInode) && nodes.Keys == old(nodes.Keys)
      ensures nodes[ino].size == old(nodes[ino].size)
      ensures forall i :: i in nodes && i != ino ==> SameFile(old(marked), old(nodes)[i], marked, nodes[i])
      ensures OthersKept(old(marked), old(nodes), marked, nodes, ino)
      ensures Grown(old(marked), old(nodes), marked, nodes, ino, off / BLOCK_SIZE)
      ensures r.Done? ==>
                && Overlaid(old(marked), old(nodes)[ino], marked, nodes[ino], off, chunk)
                && forall s :: ValidSlot(s) && Serves(s, off / BLOCK_SIZE) ==> Ptr(marked, nodes[ino], s) != 0
      ensures r.Exited? ==> r.why == NoSectors && freeBlock == g.size && Ptr(marked, nodes[ino], DataSlot(off / BLOCK_SIZE)) == 0
    {
      hide Ptr, Used, OwnersPoint, PointersOwn, MarkedIffOwned, ByteAt, Grown, OthersKept;
      r := BlockFor(ino, off / BLOCK_SIZE);
      GrownOthers(old(marked), old(nodes), marked, nodes, ino, off / BLOCK_SIZE);
      if r.Exited? {
        return;
      }
      ghost var m1, n1 := marked, nodes;
      PutChunk(ino, off, chunk);
      ChunkPut(old(marked), old(nodes), m1, n1, marked, nodes, ino, off, chunk);
    }

    method PutChunk(ino: nat, off: nat, chunk: seq<byte>)
      requires Valid() && ino in nodes && off / BLOCK_SIZE < MAX_BLOCKS
      requires 0 < |chunk| <= BLOCK_SIZE - off % BLOCK_SIZE && Ptr(marked, nodes[ino], DataSlot(off / BLOCK_SIZE)) != 0
      modifies this`disk, this`marked
      ensures Valid() && PtrsSame(old(marked), marked, nodes)
      ensures forall i :: i in nodes && i != ino ==> SameFile(old(marked), nodes[i], marked, nodes[i])
      ensures Overlaid(old(marked), nodes[ino], marked, nodes[ino], off, chunk)
    {
      hide Ptr, Used, OwnersPoint, PointersOwn, MarkedIffOwned, ByteAt;
      ghost var f := off / BLOCK_SIZE;
      ghost var at, m1 := Loc(ino, DataSlot(f)), marked;
      PointerOwns(g, marked, nodes, owner, ino, DataSlot(f));
      AgreePtr(g, disk, marked, nodes, owner, ino, DataSlot(f));
      var p := Ptr(disk, nodes[ino], DataSlot(off / BLOCK_SIZE));
      var o := off % BLOCK_SIZE;
      var v: Block := disk[p][..o] + chunk + disk[p][o + |chunk|..];
      OwnedBelow(g, marked, nodes, owner, freeBlock, p);
      disk := disk[p := v];
      marked := marked[p := v];
      PokeInv(g, m1, nodes, owner, at, v, marked);
      UsedSame(g, m1, p, v, marked);
      SameBytesRefl(m1, nodes);
      forall i | i in nodes && i != ino ensures SameFile(m1, nodes[i], marked, nodes[i]) {
        PokeOther(g, m1, nodes, m1, nodes, owner, at, v, i);
      }
      PokeOverlaid(g, m1, nodes, m1, nodes, owner, at, p, v, off, chunk, marked);
    }

    /** Appends data to a file: on success the file is the old one followed by the data, other files are unchanged,
        and a dense file stays dense. A file block number equal to MAX_BLOCKS passes the size test and indexes the
        double-indirect buffer out of bounds. */
    method Append(ino: nat, data: seq<byte>) returns (r: Outcome)
      requires Valid() && ino in nodes
      modifies this
      ensures Valid() && freeInode == old(freeInode) && nodes.Keys == old(nodes.Keys)
      ensures forall i :: i in nodes && i != ino ==> SameFile(old(marked), old(nodes)[i], marked, nodes[i])
      ensures OthersKept(old(marked), old(nodes), marked, nodes, ino)
      ensures r.Done? ==> Content(marked, nodes[ino]) == Content(old(marked), old(nodes)[ino]) + data
      ensures r.Done? && ZeroTail(old(marked), old(nodes)[ino]) ==> ZeroTail(marked, nodes[ino])
      ensures r.Done? && Dense(old(marked), old(nodes)[ino], Blocks(old(nodes[ino].size))) ==>
                Dense(marked, nodes[ino], Blocks(nodes[ino].size))
      ensures r.Exited? ==>
                || (r.why == NoSectors && freeBlock == g.size)
                || (r.why == OutOfBounds && old(nodes[ino].size) + |data| > MAX_BLOCKS * BLOCK_SIZE)
      ensures r.Exited? && r.why == NoSectors && Dense(old(marked), old(nodes)[ino], Blocks(old(nodes[ino].size))) ==>
                Short(marked, nodes[ino], Blocks(old(nodes[ino].size) + |data|))
    {
      hide Dense, Short, Grown, Overlaid, Ptr, SameFile, Inv, Used, Content, OthersKept, ZeroTail, Agree, SameBytes;
      SizeBound(g, marked, nodes, owner, ino);
      OthersRefl(marked, nodes, ino);
      SameBytesRefl(marked, nodes);
      OverlaidRefl(marked, nodes[ino], nodes[ino].size, data);
      var size, offset, p := |data|, nodes[ino].size, 0;
      ghost var z, e0 := nodes[ino].size, Blocks(nodes[ino].size);
      while size > 0
        invariant 0 <= p && size == |data| - p >= 0 && offset == z + p
        invariant Valid() && freeInode == old(freeInode) && nodes.Keys == old(nodes.Keys)
        invariant nodes[ino].size == z && offset <= MAX_BLOCKS * BLOCK_SIZE
        invariant Overlaid(old(marked), old(nodes)[ino], marked, nodes[ino], z, data[..p])
        invariant forall i :: i in nodes && i != ino ==> SameFile(old(marked), old(nodes)[i], marked, nodes[i])
        invariant OthersKept(old(marked), old(nodes), marked, nodes, ino)
        invariant Dense(old(marked), old(nodes)[ino], e0) ==>
                    Dense(marked, nodes[ino], if Blocks(offset) <= e0 then e0 else Blocks(offset))
      {
        var fileBlock := offset / BLOCK_SIZE;
        if fileBlock > MAX_BLOCKS {
          return Exited(TooLarge);
        }
        if fileBlock == MAX_BLOCKS {
          return Exited(OutOfBounds);
        }
        var n := Min(size, (fileBlock + 1) * BLOCK_SIZE - offset);
        ghost var m1, n1 := marked, nodes;
        r := AppendBlock(ino, offset, data[p..p + n]);
        FilesTrans(old(marked), old(nodes), m1, n1, marked, nodes, ino);
        OthersTrans(old(marked), old(nodes), m1, n1, marked, nodes, ino);
        if r.Exited? {
          if Dense(old(marked), old(nodes)[ino], e0) {
            WriteShort(m1, n1, marked, nodes, ino, offset, if Blocks(offset) <= e0 then e0 else Blocks(offset), z + |data|);
          }
          return;
        }
        OverlaidTrans(old(marked), old(nodes)[ino], m1, n1[ino], marked, nodes[ino], z, data, p, n);
        if Dense(old(marked), old(nodes)[ino], e0) {
          WriteDense(m1, n1, marked, nodes, ino, offset, n, e0);
        }
        size := size - n;
        offset := offset + n;
        p := p + n;
      }
      assert data[..p] == data;
      Appended(g, old(marked), old(nodes), marked, nodes, owner, ino, data, nodes[ino := nodes[ino].(size := offset)]);
      nodes := nodes[ino := nodes[ino].(size := offset)];
      r := Done;
    }

    /** The root directory's size is rounded up past its last block. Zero bytes are added to its end; it keeps a disk
        block for each of its blocks exactly when the size was not a whole number of them. */
    method RoundRoot()
      requires Valid() && ROOT_INODE in nodes
      modifies this`nodes
      ensures nodes == old(nodes)[ROOT_INODE := old(nodes)[ROOT_INODE].(size := Rounded(old(nodes)[ROOT_INODE].size))]
      ensures nodes[ROOT_INODE].size <= MAX_BLOCKS * BLOCK_SIZE ==> Valid()
      ensures ZeroTail(marked, old(nodes)[ROOT_INODE]) ==>
                Content(marked, nodes[ROOT_INODE])
                == Content(marked, old(nodes)[ROOT_INODE]) + Zeros(nodes[ROOT_INODE].size - old(nodes)[ROOT_INODE].size)
      ensures Dense(marked, old(nodes)[ROOT_INODE], Blocks(old(nodes)[ROOT_INODE].size))
              && nodes[ROOT_INODE].size <= MAX_BLOCKS * BLOCK_SIZE ==>
                (Dense(marked, nodes[ROOT_INODE], Blocks(nodes[ROOT_INODE].size))
                 <==> old(nodes)[ROOT_INODE].size % BLOCK_SIZE != 0)
    {
      hide Ptr, Used, OwnersPoint, PointersOwn, MarkedIffOwned, Dense, ZeroTail, Content;
      var n := nodes[ROOT_INODE];
      var offset := (n.size / BLOCK_SIZE + 1) * BLOCK_SIZE;
      if Dense(marked, n, Blocks(n.size)) && offset <= MAX_BLOCKS * BLOCK_SIZE {
        RoundedDense(marked, n);
      }
      if ZeroTail(marked, n) {
        RoundedContent(marked, n);
      }
      if offset <= MAX_BLOCKS * BLOCK_SIZE {
        ResizeInv(g, marked, nodes, owner, ROOT_INODE, offset);
      }
      nodes := nodes[ROOT_INODE := n.(size := offset)];
    }

    /** Writing the bitmap finishes the image: bits below free_block set, all others clear, and with it the image
        satisfies the invariant the kernel relies on. One bitmap block is written, so this fails past its last bit. */
    method WriteBitmap() returns (r: Outcome)
      requires Valid()
      modifies this`disk
      ensures r.Done? <==> freeBlock <= BITS
      ensures r.Done? ==>
                && Inv(g, disk, nodes, owner)
                && (forall b: nat :: b < Capacity(g) ==> (Used(g, disk, b) <==> b < freeBlock))
                && (forall ino :: ino in nodes ==> Content(disk, nodes[ino]) == Content(marked, nodes[ino]))
                && (forall ino :: ino in nodes ==> SamePtrs(marked, nodes[ino], disk, nodes[ino]))
      ensures r.Exited? ==> r.why == BitmapFull && disk == old(disk)
    {
      hide Ptr, OwnersPoint, PointersOwn, MarkedIffOwned, ByteAt, Bit;
      if freeBlock > BITS {
        return Exited(BitmapFull);
      }
      var buffer := FirstBits(freeBlock);
      disk := disk[g.bitmapStart := buffer];
      forall b: nat | b < Capacity(g) ensures Used(g, disk, b) == Used(g, marked, b) {
        if b < BITS {
          assert b / BITS == 0 && b % BITS == b;
        } else {
          ZeroBits(b % BITS);
        }
      }
      AgreeInv(g, disk, marked, nodes, owner);
      forall ino, s | ino in nodes && ValidSlot(s) ensures Ptr(disk, nodes[ino], s) == Ptr(marked, nodes[ino], s) {
        AgreePtr(g, disk, marked, nodes, owner, ino, s);
      }
      r := Done;
    }
  }

  // Nothing but zeros past the end of the file.
  ghost predicate ZeroTail(disk: Disk, n: Inode) {
    forall i: nat :: n.size <= i ==> ByteAt(disk, n, i) == 0
  }

  // The data lies behind the old end, and the size now covers it.
  lemma Appended(g: Geometry, m0: Disk, n0: map<nat, Inode>, m1: Disk, n1: map<nat, Inode>, owner: map<nat, Loc>, ino: nat,
                 data: seq<byte>, n2: map<nat, Inode>)
    requires Inv(g, m1, n1, owner) && ino in n0 && ino in n1 && n1[ino].size == n0[ino].size
    requires Overlaid(m0, n0[ino], m1, n1[ino], n0[ino].size, data) && OthersKept(m0, n0, m1, n1, ino)
    requires n0[ino].size + |data| <= MAX_BLOCKS * BLOCK_SIZE
    requires n2 == n1[ino := n1[ino].(size := n0[ino].size + |data|)]
    ensures Inv(g, m1, n2, owner) && Content(m1, n2[ino]) == Content(m0, n0[ino]) + data
    ensures ZeroTail(m0, n0[ino]) ==> ZeroTail(m1, n2[ino])
    ensures OthersKept(m0, n0, m1, n2, ino) && forall e: nat :: Dense(m1, n1[ino], e) ==> Dense(m1, n2[ino], e)
  {
    hide Dense, Overlaid, Inv, Content, OthersKept, ZeroTail, Splice;
    var z := n0[ino].size + |data|;
    SpliceOverlaid(m0, n0[ino], m1, n1[ino], n0[ino].size, data);
    SpliceAtEnd(m0, n0[ino], data);
    ResizeInv(g, m1, n1, owner, ino, z);
    ResizeBytes(m1, n1[ino], z);
    OthersResize(m0, n0, m1, n1, ino, z);
    TailOverlaid(m0, n0[ino], m1, n1[ino], data);
  }

  lemma TailOverlaid(d0: Disk, n0: Inode, d1: Disk, n1: Inode, data: seq<byte>)
    requires Overlaid(d0, n0, d1, n1, n0.size, data)
    ensures ZeroTail(d0, n0) ==> ZeroTail(d1, n1.(size := n0.size + |data|))
  {
    hide ByteAt;
    ResizeBytes(d1, n1, n0.size + |data|);
  }

  function Rounded(size: nat): nat {
    (size / BLOCK_SIZE + 1) * BLOCK_SIZE
  }

  lemma RoundedDense(disk: Disk, n: Inode)
    requires Dense(disk, n, Blocks(n.size)) && Rounded(n.size) <= MAX_BLOCKS * BLOCK_SIZE
    ensures Dense(disk, n.(size := Rounded(n.size)), Blocks(Rounded(n.size))) <==> n.size % BLOCK_SIZE != 0
  {
    var m, e := n.(size := Rounded(n.size)), Blocks(n.size);
    assert Blocks(Rounded(n.size)) == n.size / BLOCK_SIZE + 1;
    forall s | ValidSlot(s) ensures Ptr(disk, m, s) == Ptr(disk, n, s) {
    }
    hide Ptr;
    if n.size % BLOCK_SIZE == 0 {
      var s := DataSlot(n.size / BLOCK_SIZE);
      assert Ptr(disk, n, s) == 0;
    }
  }

  lemma RoundedContent(disk: Disk, n: Inode)
    requires ZeroTail(disk, n)
    ensures Content(disk, n.(size := Rounded(n.size))) == Content(disk, n) + Zeros(Rounded(n.size) - n.size)
  {
    hide ByteAt;
    ResizeBytes(disk, n, Rounded(n.size));
  }

  // Mapping the block, then writing the chunk into it.
  lemma ChunkPut(d0: Disk, n0: map<nat, Inode>, d1: Disk, n1: map<nat, Inode>, d2: Disk, n2: map<nat, Inode>,
                 ino: nat, off: nat, chunk: seq<byte>)
    requires SameBytes(d0, n0, d1, n1) && n2 == n1 && ino in n0 && Grown(d0, n0, d1, n1, ino, off / BLOCK_SIZE)
    requires PtrsSame(d1, d2, n1) && Overlaid(d1, n1[ino], d2, n1[ino], off, chunk)
    requires forall i :: i in n1 && i != ino ==> SameFile(d1, n1[i], d2, n1[i])
    ensures forall i :: i in n2 && i != ino ==> SameFile(d0, n0[i], d2, n2[i])
    ensures Overlaid(d0, n0[ino], d2, n2[ino], off, chunk) && n2[ino].size == n0[ino].size
    ensures Grown(d0, n0, d2, n2, ino, off / BLOCK_SIZE) && OthersKept(d0, n0, d2, n2, ino)
  {
    hide Ptr, Grown, OthersKept, ByteAt;
    PokeGrown(d0, n0, d1, d2, n1, ino, off / BLOCK_SIZE);
    GrownOthers(d0, n0, d2, n2, ino, off / BLOCK_SIZE);
    forall i | i in n0 ensures SameFile(d0, n0[i], d1, n1[i]) {
    }
    forall i | i in n2 && i != ino ensures SameFile(d0, n0[i], d2, n2[i]) {
      SameFileTrans(d0, n0[i], d1, n1[i], d2, n2[i]);
    }
  }

  // A file block is unmapped when a pointer it hangs on is empty.
  lemma UnmappedBelow(disk: Disk, n: Inode, f: nat, s: Slot)
    requires f < MAX_BLOCKS && ValidSlot(s) && Serves(s, f) && Ptr(disk, n, s) == 0
    ensures Ptr(disk, n, DataSlot(f)) == 0
  {
    hide Ptr;
    if Ptr(disk, n, DataSlot(f)) != 0 {
      AllServed(disk, n, f);
    }
  }

  // The loop of mkcofs's block_alloc.
  method FirstBits(used: nat) returns (b: Block)
    requires used <= BITS
    ensures forall k: nat :: k < BITS ==> (Bit(b, k) <==> k < used)
  {
    hide Bit, WithBit;
    b := ZeroBlock();
    forall k: nat | k < BITS ensures !Bit(b, k) {
      ZeroBits(k);
    }
    var i := 0;
    while i < used
      invariant 0 <= i <= used
      invariant forall k: nat :: k < BITS ==> (Bit(b, k) <==> k < i)
    {
      var b' := WithBit(b, i, true);
      forall k: nat | k < BITS ensures Bit(b', k) <==> k < i + 1 {
        BitOfWithBit(b, i, true, k);
      }
      b := b';
      i := i + 1;
    }
  }

  lemma ZeroBits(k: nat)
    requires k < BITS
    ensures !Bit(ZeroBlock(), k)
  {
    ZeroBit(k % 8);
  }

  lemma {:induction false} ZeroBit(k: nat)
    ensures !BitOf(0, k)
  {
    if k > 0 {
      ZeroBit(k - 1);
    }
  }

  ghost function MarkUpTo(g: Geometry, disk: Disk, n: nat): (r: Disk)
    requires ValidGeometry(g) && |disk| == Capacity(g) && n <= Capacity(g)
    ensures |r| == |disk|
  {
    if n == 0 then disk else Mark(g, MarkUpTo(g, disk, n - 1), n - 1, true)
  }

  lemma {:induction false} MarkUpToUsed(g: Geometry, disk: Disk, n: nat, b: nat)
    requires ValidGeometry(g) && |disk| == Capacity(g) && n <= Capacity(g) && b < Capacity(g)
    ensures Used(g, MarkUpTo(g, disk, n), b) == (b < n || Used(g, disk, b))
    ensures MarkUpTo(g, disk, n)[0] == disk[0]
    ensures g.meta <= b ==> MarkUpTo(g, disk, n)[b] == disk[b]
  {
    hide Bit, WithBit;
    if n > 0 {
      MarkUpToUsed(g, disk, n - 1, b);
      UsedAfterMark(g, MarkUpTo(g, disk, n - 1), n - 1, true, b);
    }
  }

  lemma InitialUsed(g: Geometry, disk: Disk)
    requires ValidGeometry(g) && |disk| == Capacity(g)
    requires forall p :: 0 <= p < |disk| ==> disk[p] == ZeroBlock()
    ensures forall b: nat :: b < Capacity(g) ==> (Used(g, MarkUpTo(g, disk, g.meta), b) <==> b < g.meta)
    ensures Agree(g, disk, MarkUpTo(g, disk, g.meta))
  {
    hide Bit, MarkUpTo;
    forall b: nat | b < Capacity(g)
      ensures Used(g, MarkUpTo(g, disk, g.meta), b) <==> b < g.meta
      ensures g.meta <= b || b == 0 ==> MarkUpTo(g, disk, g.meta)[b] == disk[b]
    {
      MarkUpToUsed(g, disk, g.meta, b);
      ZeroBits(b % BITS);
    }
  }

  lemma AgreeEmpty(disk: Disk)
    ensures Dense(disk, Inode(EMPTY_ADDRS, 0), 0)
  {
    forall s | ValidSlot(s) ensures Ptr(disk, Inode(EMPTY_ADDRS, 0), s) == 0 {
      EmptyNode(disk, s);
    }
  }

  lemma TakeAgree(g: Geometry, disk: Disk, marked: Disk, b: nat, h: nat, s: Slot, disk': Disk, marked': Disk)
    requires ValidGeometry(g) && |marked| == Capacity(g) && Agree(g, disk, marked)
    requires g.meta <= b < |disk| && disk[b] == ZeroBlock() && ValidSlot(s)
    requires s.Addr? || (g.meta <= h < |disk| && h != b)
    requires disk' == if s.Addr? then disk else disk[h := WithWord(disk[h], Index(s), b)]
    requires marked' == SetPtrDisk(TakeBlock(g, marked, b), h, s, b)
    ensures Agree(g, disk', marked')
  {
    hide WithWord, WithBit, Bit;
  }

  lemma OwnedBelow(g: Geometry, marked: Disk, nodes: map<nat, Inode>, owner: map<nat, Loc>, freeBlock: nat, p: nat)
    requires Inv(g, marked, nodes, owner) && g.meta <= p < |marked| && Used(g, marked, p)
    requires forall b: nat :: b < Capacity(g) ==> (Used(g, marked, b) <==> b < freeBlock)
    ensures p < freeBlock
  {
  }

  lemma UsedSame(g: Geometry, disk: Disk, p: nat, v: Block, disk': Disk)
    requires ValidGeometry(g) && |disk| == Capacity(g) && g.meta <= p < |disk| && disk' == disk[p := v]
    ensures forall b: nat :: b < Capacity(g) ==> Used(g, disk', b) == Used(g, disk, b)
  {
    forall b: nat | b < Capacity(g) ensures Used(g, disk', b) == Used(g, disk, b) {
      UsedElsewhere(g, disk, p, v, b);
    }
  }

  lemma SpliceAtEnd(disk: Disk, n: Inode, data: seq<byte>)
    ensures Splice(Content(disk, n), n.size, data) == Content(disk, n) + data
  {
  }
}
