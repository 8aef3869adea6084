/**
The on-disk layout of cofs as values: where an inode keeps the address of each
file block, which disk block belongs to whom, and what one elementary change
(take a block, give a block back, overwrite a data block) does to all of it.

Every pointer of an inode is a `Slot`: the eight entries of its address array,
the words of its single-indirect block, the words of its double-indirect block,
and the words of the blocks those name. A slot serves the file blocks
[Lo(s), Hi(s)): one block for a data slot, the whole range under it for an
indirect one.
*/
module CofsLayout {
  import opened Block

  const NUM_DIRECT := 6
  const NUM_SIND := 128
  const NUM_DIND := 16384
  const SIND_IDX := 6
  const DIND_IDX := 7
  const DIND_BASE := 134
  const MAX_BLOCKS := 16518

  datatype Inode = Inode(addrs: seq<nat>, size: nat)

  datatype Slot = Addr(k: nat) | Sind(i: nat) | Mid(m: nat) | Dind(m: nat, s: nat)

  datatype Loc = Loc(ino: nat, slot: Slot)

  /** `size` blocks in the file system, bitmap from block `bitmapStart`, data from block `meta`. */
  datatype Geometry = Geometry(size: nat, bitmapStart: nat, meta: nat)

  // Number of bits in the bitmap blocks that block_alloc scans.
  function Capacity(g: Geometry): nat {
    (g.size + BITS - 1) / BITS * BITS
  }

  predicate ValidGeometry(g: Geometry) {
    && 2 <= g.bitmapStart
    && g.bitmapStart + Capacity(g) / BITS <= g.meta <= g.size
    && Capacity(g) <= WORD_LIMIT
  }

  type Disk = seq<Block>

  // ---- slots ---------------------------------------------------------------

  predicate ValidSlot(s: Slot) {
    match s
    case Addr(k) => k <= DIND_IDX
    case Sind(i) => i < NUM_SIND
    case Mid(m) => m < NUM_SIND
    case Dind(m, i) => m < NUM_SIND && i < NUM_SIND
  }

  predicate IsData(s: Slot) {
    match s
    case Addr(k) => k < NUM_DIRECT
    case Sind(_) => true
    case Mid(_) => false
    case Dind(_, _) => true
  }

  function Parent(s: Slot): Slot
    requires !s.Addr?
  {
    match s
    case Sind(_) => Addr(SIND_IDX)
    case Mid(_) => Addr(DIND_IDX)
    case Dind(m, _) => Mid(m)
  }

  function Index(s: Slot): nat
    requires !s.Addr?
  {
    match s
    case Sind(i) => i
    case Mid(m) => m
    case Dind(_, i) => i
  }

  function Lo(s: Slot): nat {
    match s
    case Addr(k) => if k <= SIND_IDX then k else DIND_BASE
    case Sind(i) => NUM_DIRECT + i
    case Mid(m) => DIND_BASE + NUM_SIND * m
    case Dind(m, i) => DIND_BASE + NUM_SIND * m + i
  }

  function Hi(s: Slot): nat {
    match s
    case Addr(k) => if k < NUM_DIRECT then k + 1 else if k == SIND_IDX then DIND_BASE else MAX_BLOCKS
    case Sind(i) => NUM_DIRECT + i + 1
    case Mid(m) => DIND_BASE + NUM_SIND * (m + 1)
    case Dind(m, i) => DIND_BASE + NUM_SIND * m + i + 1
  }

  predicate Serves(s: Slot, f: nat) {
    Lo(s) <= f < Hi(s)
  }

  function DataSlot(f: nat): (s: Slot)
    requires f < MAX_BLOCKS
    ensures ValidSlot(s) && IsData(s) && Lo(s) == f && Hi(s) == f + 1
  {
    if f < NUM_DIRECT then Addr(f)
    else if f < DIND_BASE then Sind(f - NUM_DIRECT)
    else Dind((f - DIND_BASE) / NUM_SIND, (f - DIND_BASE) % NUM_SIND)
  }

  lemma DataSlotOnto(s: Slot)
    requires ValidSlot(s) && IsData(s)
    ensures Lo(s) < MAX_BLOCKS && DataSlot(Lo(s)) == s
  {
    if s.Dind? {
      assert (s.m * NUM_SIND + s.s) / NUM_SIND == s.m;
    }
  }

  // The slots that serve a file block are its data slot and that slot's ancestors.
  lemma ServedBy(s: Slot, f: nat)
    requires ValidSlot(s) && f < MAX_BLOCKS
    ensures Serves(s, f) <==>
      || s == DataSlot(f)
      || (NUM_DIRECT <= f < DIND_BASE && s == Addr(SIND_IDX))
      || (DIND_BASE <= f && (s == Addr(DIND_IDX) || s == Mid((f - DIND_BASE) / NUM_SIND)))
  {
    match s
    case Mid(m) =>
      if Serves(s, f) {
        assert f - DIND_BASE == NUM_SIND * m + (f - DIND_BASE - NUM_SIND * m);
      }
    case Dind(m, i) =>
      if Serves(s, f) {
        DataSlotOnto(s);
      }
    case _ =>
  }

  // ---- reading pointers ----------------------------------------------------

  function WordAt(disk: Disk, p: nat, i: nat): (w: nat)
    ensures w < WORD_LIMIT
  {
    if 0 < p < |disk| && i < WORDS then Word(disk[p], i) else 0
  }

  function AddrOf(n: Inode, k: nat): nat {
    if k < |n.addrs| then n.addrs[k] else 0
  }

  function Ptr(disk: Disk, n: Inode, s: Slot): nat {
    match s
    case Addr(k) => AddrOf(n, k)
    case Sind(i) => WordAt(disk, AddrOf(n, SIND_IDX), i)
    case Mid(m) => WordAt(disk, AddrOf(n, DIND_IDX), m)
    case Dind(m, i) => WordAt(disk, WordAt(disk, AddrOf(n, DIND_IDX), m), i)
  }

  // Byte i of a file; a file block without a disk block reads as zeros.
  function ByteAt(disk: Disk, n: Inode, i: nat): byte {
    if i / BLOCK_SIZE < MAX_BLOCKS then
      var p := Ptr(disk, n, DataSlot(i / BLOCK_SIZE));
      if 0 < p < |disk| then disk[p][i % BLOCK_SIZE] else 0
    else 0
  }

  // A file is a flat sequence of bytes.
  function Content(disk: Disk, n: Inode): (c: seq<byte>)
    ensures |c| == n.size
  {
    seq(n.size, i requires 0 <= i => ByteAt(disk, n, i))
  }

  function Blocks(size: nat): nat {
    (size + BLOCK_SIZE - 1) / BLOCK_SIZE
  }

  // Exactly the slots below file block e are filled: no hole, nothing past the end, no idle indirect block.
  ghost predicate Dense(disk: Disk, n: Inode, e: nat) {
    forall s :: ValidSlot(s) ==> (Ptr(disk, n, s) != 0 <==> Lo(s) < e)
  }

  // ---- the ownership invariant ---------------------------------------------

  predicate Used(g: Geometry, disk: Disk, b: nat)
    requires ValidGeometry(g) && |disk| == Capacity(g) && b < Capacity(g)
  {
    Bit(disk[g.bitmapStart + b / BITS], b % BITS)
  }

  ghost predicate Shape(g: Geometry, disk: Disk, nodes: map<nat, Inode>) {
    && ValidGeometry(g)
    && |disk| == Capacity(g)
    && disk[0] == ZeroBlock()
    && (forall ino :: ino in nodes ==> |nodes[ino].addrs| == 9 && nodes[ino].size <= MAX_BLOCKS * BLOCK_SIZE)
    && (forall b: nat :: b < g.meta ==> Used(g, disk, b))
  }

  // A data block is marked used exactly when it has an owner,
  ghost predicate MarkedIffOwned(g: Geometry, disk: Disk, owner: map<nat, Loc>)
    requires ValidGeometry(g) && |disk| == Capacity(g)
  {
    forall b: nat :: g.meta <= b < Capacity(g) ==> (Used(g, disk, b) <==> b in owner)
  }

  // the owner is a pointer that holds it,
  ghost predicate OwnersPoint(g: Geometry, disk: Disk, nodes: map<nat, Inode>, owner: map<nat, Loc>) {
    forall b :: b in owner ==>
      && g.meta <= b < Capacity(g)
      && owner[b].ino in nodes && ValidSlot(owner[b].slot)
      && Ptr(disk, nodes[owner[b].ino], owner[b].slot) == b
  }

  // and every non-zero pointer is the owner of its block.
  ghost predicate PointersOwn(disk: Disk, nodes: map<nat, Inode>, owner: map<nat, Loc>) {
    forall ino, s :: ino in nodes && ValidSlot(s) && Ptr(disk, nodes[ino], s) != 0 ==>
      Ptr(disk, nodes[ino], s) in owner && owner[Ptr(disk, nodes[ino], s)] == Loc(ino, s)
  }

  ghost predicate Inv(g: Geometry, disk: Disk, nodes: map<nat, Inode>, owner: map<nat, Loc>) {
    && Shape(g, disk, nodes)
    && MarkedIffOwned(g, disk, owner)
    && OwnersPoint(g, disk, nodes, owner)
    && PointersOwn(disk, nodes, owner)
  }

  // The block named by pointer s of file ino is a used data block, and pointer t of file j does not name it too.
  ghost predicate Exclusive(g: Geometry, disk: Disk, nodes: map<nat, Inode>, ino: nat, s: Slot, j: nat, t: Slot)
    requires ValidGeometry(g) && |disk| == Capacity(g) && ino in nodes && j in nodes
  {
    var p := Ptr(disk, nodes[ino], s);
    p != 0 ==>
      && g.meta <= p < Capacity(g) && Used(g, disk, p)
      && (p == Ptr(disk, nodes[j], t) ==> ino == j && s == t)
  }

  /** What the invariant means: the pointers of all files are pairwise distinct used data blocks, and no block leaks. */
  lemma Ownership(g: Geometry, disk: Disk, nodes: map<nat, Inode>, owner: map<nat, Loc>)
    requires Inv(g, disk, nodes, owner)
    ensures forall i, s, j, t :: i in nodes && ValidSlot(s) && j in nodes && ValidSlot(t) ==>
                                   Exclusive(g, disk, nodes, i, s, j, t)
    ensures forall b: nat :: g.meta <= b < Capacity(g) && Used(g, disk, b) ==>
                               exists i, s :: i in nodes && ValidSlot(s) && Ptr(disk, nodes[i], s) == b
  {
    hide Ptr;
    forall i, s, j, t | i in nodes && ValidSlot(s) && j in nodes && ValidSlot(t)
      ensures Exclusive(g, disk, nodes, i, s, j, t)
    {
      if Ptr(disk, nodes[i], s) != 0 {
        PointerOwns(g, disk, nodes, owner, i, s);
        if Ptr(disk, nodes[j], t) != 0 {
          PointerOwns(g, disk, nodes, owner, j, t);
        }
      }
    }
    forall b: nat | g.meta <= b < Capacity(g) && Used(g, disk, b)
      ensures exists i, s :: i in nodes && ValidSlot(s) && Ptr(disk, nodes[i], s) == b
    {
      assert Ptr(disk, nodes[owner[b].ino], owner[b].slot) == b;
    }
  }

  lemma PointerOwns(g: Geometry, disk: Disk, nodes: map<nat, Inode>, owner: map<nat, Loc>, ino: nat, s: Slot)
    requires Inv(g, disk, nodes, owner) && ino in nodes && ValidSlot(s)
    requires Ptr(disk, nodes[ino], s) != 0
    ensures Ptr(disk, nodes[ino], s) in owner && owner[Ptr(disk, nodes[ino], s)] == Loc(ino, s)
    ensures g.meta <= Ptr(disk, nodes[ino], s) < |disk| && Used(g, disk, Ptr(disk, nodes[ino], s))
  {
  }

  /** While cofs holds the block a pointer names, it asks the cache for a bitmap block or for a block whose bit was clear.
      Neither is the block it holds, so it never asks for a block twice. */
  lemma HeldApart(g: Geometry, disk: Disk, nodes: map<nat, Inode>, owner: map<nat, Loc>, ino: nat, s: Slot, b: nat)
    requires Inv(g, disk, nodes, owner) && ino in nodes && ValidSlot(s) && b < Capacity(g)
    ensures Ptr(disk, nodes[ino], s) != g.bitmapStart + b / BITS
    ensures !Used(g, disk, b) ==> b != Ptr(disk, nodes[ino], s)
  {
    hide Ptr;
    if Ptr(disk, nodes[ino], s) != 0 {
      PointerOwns(g, disk, nodes, owner, ino, s);
    }
    assert Used(g, disk, 0);
  }

  // ---- elementary changes --------------------------------------------------

  function Mark(g: Geometry, disk: Disk, b: nat, v: bool): (r: Disk)
    requires ValidGeometry(g) && |disk| == Capacity(g) && b < Capacity(g)
    ensures |r| == |disk|
    ensures forall p :: g.meta <= p < |disk| ==> r[p] == disk[p]
  {
    var p := g.bitmapStart + b / BITS;
    disk[p := WithBit(disk[p], b % BITS, v)]
  }

  lemma UsedAfterMark(g: Geometry, disk: Disk, b: nat, v: bool, c: nat)
    requires ValidGeometry(g) && |disk| == Capacity(g) && b < Capacity(g) && c < Capacity(g)
    ensures Used(g, Mark(g, disk, b, v), c) == if c == b then v else Used(g, disk, c)
  {
    if c / BITS == b / BITS {
      BitOfWithBit(disk[g.bitmapStart + b / BITS], b % BITS, v, c % BITS);
    }
  }

  // Marks b used and zeroes it.
  function TakeBlock(g: Geometry, disk: Disk, b: nat): (r: Disk)
    requires ValidGeometry(g) && |disk| == Capacity(g) && b < Capacity(g)
    ensures |r| == |disk|
  {
    Mark(g, disk, b, true)[b := ZeroBlock()]
  }

  // Block that holds pointer s of n, 0 for the inode's own address array.
  function Holder(disk: Disk, n: Inode, s: Slot): nat {
    if s.Addr? then 0 else Ptr(disk, n, Parent(s))
  }

  function SetPtrDisk(disk: Disk, holder: nat, s: Slot, v: nat): (r: Disk)
    requires ValidSlot(s) && v < WORD_LIMIT
    requires s.Addr? || 0 < holder < |disk|
    ensures |r| == |disk|
  {
    if s.Addr? then disk else disk[holder := WithWord(disk[holder], Index(s), v)]
  }

  function SetPtrNode(n: Inode, s: Slot, v: nat): (r: Inode)
    requires ValidSlot(s) && |n.addrs| == 9
  {
    if s.Addr? then n.(addrs := n.addrs[s.k := v]) else n
  }

  ghost predicate CanTake(g: Geometry, disk: Disk, nodes: map<nat, Inode>, owner: map<nat, Loc>, b: nat, at: Loc) {
    && Inv(g, disk, nodes, owner)
    && g.meta <= b < Capacity(g) && !Used(g, disk, b)
    && at.ino in nodes && ValidSlot(at.slot)
    && Ptr(disk, nodes[at.ino], at.slot) == 0
    && (at.slot.Addr? || 0 < Holder(disk, nodes[at.ino], at.slot) < |disk|)
  }

  // Taking a free block into an empty slot changes that pointer and no other.
  lemma TakePtr(g: Geometry, disk: Disk, nodes: map<nat, Inode>, owner: map<nat, Loc>, b: nat, at: Loc,
                disk': Disk, nodes': map<nat, Inode>, ino: nat, s: Slot)
    requires CanTake(g, disk, nodes, owner, b, at)
    requires disk' == SetPtrDisk(TakeBlock(g, disk, b), Holder(disk, nodes[at.ino], at.slot), at.slot, b)
    requires nodes' == nodes[at.ino := SetPtrNode(nodes[at.ino], at.slot, b)]
    requires ino in nodes && ValidSlot(s)
    ensures Ptr(disk', nodes'[ino], s) == if Loc(ino, s) == at then b else Ptr(disk, nodes[ino], s)
  {
    hide Used, TakeBlock, SetPtrDisk, OwnersPoint, PointersOwn, MarkedIffOwned;
    if !s.Addr? {
      if Parent(s).Addr? {
        TakeWord(g, disk, nodes, owner, b, at, disk', ino, Parent(s), Index(s));
      } else {
        TakeWord(g, disk, nodes, owner, b, at, disk', ino, Parent(Parent(s)), Index(Parent(s)));
        TakeWord(g, disk, nodes, owner, b, at, disk', ino, Parent(s), Index(s));
      }
    }
  }

  // Word i of the indirect block that pointer t of file ino names.
  lemma TakeWord(g: Geometry, disk: Disk, nodes: map<nat, Inode>, owner: map<nat, Loc>, b: nat, at: Loc,
                 disk': Disk, ino: nat, t: Slot, i: nat)
    requires CanTake(g, disk, nodes, owner, b, at)
    requires disk' == SetPtrDisk(TakeBlock(g, disk, b), Holder(disk, nodes[at.ino], at.slot), at.slot, b)
    requires ino in nodes && ValidSlot(t) && i < WORDS
    ensures WordAt(disk', b, i) == 0
    ensures Ptr(disk, nodes[ino], t) != 0 ==>
              WordAt(disk', Ptr(disk, nodes[ino], t), i) ==
              if !at.slot.Addr? && at.ino == ino && Parent(at.slot) == t && Index(at.slot) == i then b
              else WordAt(disk, Ptr(disk, nodes[ino], t), i)
  {
    var q, h := Ptr(disk, nodes[ino], t), Holder(disk, nodes[at.ino], at.slot);
    if !at.slot.Addr? {
      PointerOwns(g, disk, nodes, owner, at.ino, Parent(at.slot));
    }
    WordAfterTake(g, disk, b, h, at.slot, b, i);
    if q != 0 {
      PointerOwns(g, disk, nodes, owner, ino, t);
      WordAfterTake(g, disk, b, h, at.slot, q, i);
    }
  }

  lemma WordAfterTake(g: Geometry, disk: Disk, b: nat, h: nat, s: Slot, q: nat, i: nat)
    requires ValidGeometry(g) && |disk| == Capacity(g) && g.meta <= b < |disk| && g.meta <= q < |disk| && i < WORDS
    requires ValidSlot(s) && (s.Addr? || (g.meta <= h < |disk| && h != b))
    ensures WordAt(SetPtrDisk(TakeBlock(g, disk, b), h, s, b), q, i) ==
            if q == b then 0
            else if !s.Addr? && q == h && Index(s) == i then b
            else WordAt(disk, q, i)
  {
    ZeroWords(i);
    if !s.Addr? && q == h {
      WordOfWithWord(disk[h], Index(s), b, i);
    }
  }

  // The bitmap changed at b only, to v.
  ghost predicate UsedExcept(g: Geometry, disk: Disk, disk': Disk, b: nat, v: bool)
    requires ValidGeometry(g) && |disk| == Capacity(g) == |disk'|
  {
    forall c: nat :: c < Capacity(g) ==> Used(g, disk', c) == if c == b then v else Used(g, disk, c)
  }

  // The pointers changed at `at` only, to v.
  ghost predicate PtrsExcept(disk: Disk, nodes: map<nat, Inode>, disk': Disk, nodes': map<nat, Inode>, at: Loc, v: nat) {
    && nodes'.Keys == nodes.Keys
    && forall ino, s :: ino in nodes && ValidSlot(s) ==>
                          Ptr(disk', nodes'[ino], s) == if Loc(ino, s) == at then v else Ptr(disk, nodes[ino], s)
  }

  lemma TakeOwners(g: Geometry, disk: Disk, nodes: map<nat, Inode>, owner: map<nat, Loc>, b: nat, at: Loc,
                   disk': Disk, nodes': map<nat, Inode>)
    requires CanTake(g, disk, nodes, owner, b, at)
    requires Shape(g, disk', nodes')
    requires UsedExcept(g, disk, disk', b, true)
    requires PtrsExcept(disk, nodes, disk', nodes', at, b)
    ensures Inv(g, disk', nodes', owner[b := at])
  {
    hide Ptr, Used, TakeBlock, SetPtrDisk, SetPtrNode;
    var owner' := owner[b := at];
    forall c | c in owner'
      ensures g.meta <= c < Capacity(g) && owner'[c].ino in nodes' && ValidSlot(owner'[c].slot)
      ensures Ptr(disk', nodes'[owner'[c].ino], owner'[c].slot) == c
    {
    }
    forall ino, s | ino in nodes' && ValidSlot(s) && Ptr(disk', nodes'[ino], s) != 0
      ensures Ptr(disk', nodes'[ino], s) in owner' && owner'[Ptr(disk', nodes'[ino], s)] == Loc(ino, s)
    {
      if Loc(ino, s) != at {
        PointerOwns(g, disk, nodes, owner, ino, s);
      }
    }
  }

  /** Taking a free block into an empty slot keeps the invariant. */
  lemma TakeInv(g: Geometry, disk: Disk, nodes: map<nat, Inode>, owner: map<nat, Loc>, b: nat, at: Loc,
                disk': Disk, nodes': map<nat, Inode>)
    requires CanTake(g, disk, nodes, owner, b, at)
    requires disk' == SetPtrDisk(TakeBlock(g, disk, b), Holder(disk, nodes[at.ino], at.slot), at.slot, b)
    requires nodes' == nodes[at.ino := SetPtrNode(nodes[at.ino], at.slot, b)]
    ensures Inv(g, disk', nodes', owner[b := at])
    ensures UsedExcept(g, disk, disk', b, true)
    ensures PtrsExcept(disk, nodes, disk', nodes', at, b)
  {
    hide Ptr, Used, TakeBlock, SetPtrDisk, OwnersPoint, PointersOwn, SetPtrNode;
    assert PtrsExcept(disk, nodes, disk', nodes', at, b) by {
      forall ino, s | ino in nodes && ValidSlot(s)
        ensures Ptr(disk', nodes'[ino], s) == if Loc(ino, s) == at then b else Ptr(disk, nodes[ino], s)
      {
        TakePtr(g, disk, nodes, owner, b, at, disk', nodes', ino, s);
      }
    }
    TakeShape(g, disk, nodes, owner, b, at, disk', nodes');
    TakeOwners(g, disk, nodes, owner, b, at, disk', nodes');
  }

  lemma TakeShape(g: Geometry, disk: Disk, nodes: map<nat, Inode>, owner: map<nat, Loc>, b: nat, at: Loc,
                  disk': Disk, nodes': map<nat, Inode>)
    requires CanTake(g, disk, nodes, owner, b, at)
    requires disk' == SetPtrDisk(TakeBlock(g, disk, b), Holder(disk, nodes[at.ino], at.slot), at.slot, b)
    requires nodes' == nodes[at.ino := SetPtrNode(nodes[at.ino], at.slot, b)]
    ensures UsedExcept(g, disk, disk', b, true)
    ensures Shape(g, disk', nodes')
  {
    hide Ptr, WithBit, WithWord, Bit;
    if !at.slot.Addr? {
      PointerOwns(g, disk, nodes, owner, at.ino, Parent(at.slot));
    }
    UsedAfterTake(g, disk, b, Holder(disk, nodes[at.ino], at.slot), at.slot);
  }

  lemma UsedAfterTake(g: Geometry, disk: Disk, b: nat, h: nat, s: Slot)
    requires ValidGeometry(g) && |disk| == Capacity(g) && g.meta <= b < |disk|
    requires ValidSlot(s) && (s.Addr? || g.meta <= h < |disk|)
    ensures UsedExcept(g, disk, SetPtrDisk(TakeBlock(g, disk, b), h, s, b), b, true)
    ensures SetPtrDisk(TakeBlock(g, disk, b), h, s, b)[0] == disk[0]
  {
    hide Bit, WithBit, WithWord;
    forall c: nat | c < Capacity(g)
      ensures Used(g, SetPtrDisk(TakeBlock(g, disk, b), h, s, b), c) == if c == b then true else Used(g, disk, c)
    {
      UsedAfterMark(g, disk, b, true, c);
    }
  }

  // All files keep their size and their bytes.
  ghost predicate SameBytes(disk: Disk, nodes: map<nat, Inode>, disk': Disk, nodes': map<nat, Inode>) {
    && nodes'.Keys == nodes.Keys
    && forall ino :: ino in nodes ==> SameFile(disk, nodes[ino], disk', nodes'[ino])
  }

  ghost predicate SameFile(disk: Disk, n: Inode, disk': Disk, n': Inode) {
    n'.size == n.size && forall i: nat :: ByteAt(disk', n', i) == ByteAt(disk, n, i)
  }

  /** Taking a block shows in no file: the new block is zeroed, so the file reads as before. */
  lemma TakeBytes(g: Geometry, disk: Disk, nodes: map<nat, Inode>, owner: map<nat, Loc>, b: nat, at: Loc,
                  disk': Disk, nodes': map<nat, Inode>)
    requires CanTake(g, disk, nodes, owner, b, at)
    requires disk' == SetPtrDisk(TakeBlock(g, disk, b), Holder(disk, nodes[at.ino], at.slot), at.slot, b)
    requires nodes' == nodes[at.ino := SetPtrNode(nodes[at.ino], at.slot, b)]
    ensures SameBytes(disk, nodes, disk', nodes')
  {
    hide Ptr, Used, TakeBlock, SetPtrDisk, OwnersPoint, PointersOwn, ByteAt;
    forall ino | ino in nodes ensures SameFile(disk, nodes[ino], disk', nodes'[ino]) {
      forall i: nat ensures ByteAt(disk', nodes'[ino], i) == ByteAt(disk, nodes[ino], i) {
        TakeByte(g, disk, nodes, owner, b, at, disk', nodes', ino, i);
      }
    }
  }

  lemma TakeByte(g: Geometry, disk: Disk, nodes: map<nat, Inode>, owner: map<nat, Loc>, b: nat, at: Loc,
                 disk': Disk, nodes': map<nat, Inode>, ino: nat, i: nat)
    requires CanTake(g, disk, nodes, owner, b, at)
    requires disk' == SetPtrDisk(TakeBlock(g, disk, b), Holder(disk, nodes[at.ino], at.slot), at.slot, b)
    requires nodes' == nodes[at.ino := SetPtrNode(nodes[at.ino], at.slot, b)]
    requires ino in nodes
    ensures ByteAt(disk', nodes'[ino], i) == ByteAt(disk, nodes[ino], i)
  {
    hide Ptr, Used, TakeBlock, SetPtrDisk, PointersOwn;
    var h := Holder(disk, nodes[at.ino], at.slot);
    if !at.slot.Addr? {
      PointerOwns(g, disk, nodes, owner, at.ino, Parent(at.slot));
    }
    if i / BLOCK_SIZE < MAX_BLOCKS {
      var s := DataSlot(i / BLOCK_SIZE);
      var p := Ptr(disk, nodes[ino], s);
      TakePtr(g, disk, nodes, owner, b, at, disk', nodes', ino, s);
      if p != 0 {
        PointerOwns(g, disk, nodes, owner, ino, s);
      }
      BlockAfterTake(g, disk, b, h, at.slot, if p == 0 then b else p);
    }
  }

  lemma BlockAfterTake(g: Geometry, disk: Disk, b: nat, h: nat, s: Slot, p: nat)
    requires ValidGeometry(g) && |disk| == Capacity(g) && g.meta <= b < |disk| && g.meta <= p < |disk|
    requires ValidSlot(s) && (s.Addr? || (g.meta <= h < |disk| && h != b && h != p))
    ensures SetPtrDisk(TakeBlock(g, disk, b), h, s, b)[p] == if p == b then ZeroBlock() else disk[p]
  {
  }

  // ---- giving a block back -------------------------------------------------

  // Slot `at` names a block, and no pointer kept in that block is set.
  ghost predicate CanGive(g: Geometry, disk: Disk, nodes: map<nat, Inode>, owner: map<nat, Loc>, at: Loc) {
    && Inv(g, disk, nodes, owner)
    && at.ino in nodes && ValidSlot(at.slot)
    && Ptr(disk, nodes[at.ino], at.slot) != 0
    && (at.slot.Addr? || 0 < Holder(disk, nodes[at.ino], at.slot) < |disk|)
    && (forall s :: ValidSlot(s) && !s.Addr? && Parent(s) == at.slot ==> Ptr(disk, nodes[at.ino], s) == 0)
  }

  function GiveDisk(g: Geometry, disk: Disk, b: nat, h: nat, s: Slot): (r: Disk)
    requires ValidGeometry(g) && |disk| == Capacity(g) && b < Capacity(g)
    requires ValidSlot(s) && (s.Addr? || 0 < h < |disk|)
    ensures |r| == |disk|
  {
    SetPtrDisk(Mark(g, disk, b, false), h, s, 0)
  }

  lemma WordAfterGive(g: Geometry, disk: Disk, b: nat, h: nat, s: Slot, q: nat, i: nat)
    requires ValidGeometry(g) && |disk| == Capacity(g) && b < |disk| && g.meta <= q < |disk| && i < WORDS
    requires ValidSlot(s) && (s.Addr? || g.meta <= h < |disk|)
    ensures WordAt(GiveDisk(g, disk, b, h, s), q, i) ==
            if !s.Addr? && q == h && Index(s) == i then 0 else WordAt(disk, q, i)
    ensures s.Addr? || q != h ==> GiveDisk(g, disk, b, h, s)[q] == disk[q]
  {
    if !s.Addr? && q == h {
      WordOfWithWord(disk[h], Index(s), 0, i);
    }
  }

  lemma GiveWord(g: Geometry, disk: Disk, nodes: map<nat, Inode>, owner: map<nat, Loc>, at: Loc,
                 disk': Disk, ino: nat, t: Slot, i: nat)
    requires CanGive(g, disk, nodes, owner, at)
    requires Ptr(disk, nodes[at.ino], at.slot) < |disk|
    requires disk' == GiveDisk(g, disk, Ptr(disk, nodes[at.ino], at.slot), Holder(disk, nodes[at.ino], at.slot), at.slot)
    requires ino in nodes && ValidSlot(t) && i < WORDS && Ptr(disk, nodes[ino], t) != 0
    ensures WordAt(disk', Ptr(disk, nodes[ino], t), i) ==
            if !at.slot.Addr? && at.ino == ino && Parent(at.slot) == t && Index(at.slot) == i then 0
            else WordAt(disk, Ptr(disk, nodes[ino], t), i)
  {
    PointerOwns(g, disk, nodes, owner, at.ino, at.slot);
    if !at.slot.Addr? {
      PointerOwns(g, disk, nodes, owner, at.ino, Parent(at.slot));
    }
    PointerOwns(g, disk, nodes, owner, ino, t);
    WordAfterGive(g, disk, Ptr(disk, nodes[at.ino], at.slot), Holder(disk, nodes[at.ino], at.slot), at.slot,
                  Ptr(disk, nodes[ino], t), i);
  }

  lemma GivePtr(g: Geometry, disk: Disk, nodes: map<nat, Inode>, owner: map<nat, Loc>, at: Loc,
                disk': Disk, nodes': map<nat, Inode>, ino: nat, s: Slot)
    requires CanGive(g, disk, nodes, owner, at)
    requires Ptr(disk, nodes[at.ino], at.slot) < |disk|
    requires disk' == GiveDisk(g, disk, Ptr(disk, nodes[at.ino], at.slot), Holder(disk, nodes[at.ino], at.slot), at.slot)
    requires nodes' == nodes[at.ino := SetPtrNode(nodes[at.ino], at.slot, 0)]
    requires ino in nodes && ValidSlot(s)
    ensures Ptr(disk', nodes'[ino], s) == if Loc(ino, s) == at then 0 else Ptr(disk, nodes[ino], s)
  {
    hide Used, GiveDisk, OwnersPoint, PointersOwn, MarkedIffOwned;
    if !s.Addr? {
      var t := Parent(s);
      if !t.Addr? && Ptr(disk, nodes[ino], Parent(t)) != 0 {
        GiveWord(g, disk, nodes, owner, at, disk', ino, Parent(t), Index(t));
      }
      if Ptr(disk, nodes[ino], t) != 0 {
        GiveWord(g, disk, nodes, owner, at, disk', ino, t, Index(s));
      }
    }
  }

  lemma GiveOwnersPoint(g: Geometry, disk: Disk, nodes: map<nat, Inode>, owner: map<nat, Loc>, b: nat, at: Loc,
                        disk': Disk, nodes': map<nat, Inode>)
    requires OwnersPoint(g, disk, nodes, owner)
    requires PtrsExcept(disk, nodes, disk', nodes', at, 0)
    requires at.ino in nodes && b == Ptr(disk, nodes[at.ino], at.slot)
    ensures OwnersPoint(g, disk', nodes', owner - {b})
  {
    hide Ptr;
    forall c | c in owner - {b}
      ensures g.meta <= c < Capacity(g) && owner[c].ino in nodes' && ValidSlot(owner[c].slot)
      ensures Ptr(disk', nodes'[owner[c].ino], owner[c].slot) == c
    {
      assert Ptr(disk, nodes[owner[c].ino], owner[c].slot) == c;
    }
  }

  lemma GivePointersOwn(disk: Disk, nodes: map<nat, Inode>, owner: map<nat, Loc>, b: nat, at: Loc,
                        disk': Disk, nodes': map<nat, Inode>)
    requires PointersOwn(disk, nodes, owner)
    requires PtrsExcept(disk, nodes, disk', nodes', at, 0)
    requires b in owner && owner[b] == at
    ensures PointersOwn(disk', nodes', owner - {b})
  {
    hide Ptr;
    forall ino, s | ino in nodes' && ValidSlot(s) && Ptr(disk', nodes'[ino], s) != 0
      ensures Ptr(disk', nodes'[ino], s) in owner - {b} && owner[Ptr(disk', nodes'[ino], s)] == Loc(ino, s)
    {
      assert Ptr(disk', nodes'[ino], s) == Ptr(disk, nodes[ino], s);
    }
  }

  lemma UsedAfterGive(g: Geometry, disk: Disk, b: nat, h: nat, s: Slot)
    requires ValidGeometry(g) && |disk| == Capacity(g) && b < |disk|
    requires ValidSlot(s) && (s.Addr? || g.meta <= h < |disk|)
    ensures UsedExcept(g, disk, GiveDisk(g, disk, b, h, s), b, false)
    ensures GiveDisk(g, disk, b, h, s)[0] == disk[0]
  {
    hide Bit, WithBit, WithWord;
    forall c: nat | c < Capacity(g)
      ensures Used(g, GiveDisk(g, disk, b, h, s), c) == if c == b then false else Used(g, disk, c)
    {
      UsedAfterMark(g, disk, b, false, c);
    }
  }

  /** Giving back the block of a slot frees that block and no other, and clears that pointer and no other. */
  lemma GiveInv(g: Geometry, disk: Disk, nodes: map<nat, Inode>, owner: map<nat, Loc>, b: nat, at: Loc,
                disk': Disk, nodes': map<nat, Inode>)
    requires CanGive(g, disk, nodes, owner, at) && b == Ptr(disk, nodes[at.ino], at.slot) < |disk|
    requires disk' == GiveDisk(g, disk, b, Holder(disk, nodes[at.ino], at.slot), at.slot)
    requires nodes' == nodes[at.ino := SetPtrNode(nodes[at.ino], at.slot, 0)]
    ensures Inv(g, disk', nodes', owner - {b})
    ensures UsedExcept(g, disk, disk', b, false)
    ensures PtrsExcept(disk, nodes, disk', nodes', at, 0)
  {
    hide Ptr, Used, GiveDisk, OwnersPoint, PointersOwn, SetPtrNode;
    assert PtrsExcept(disk, nodes, disk', nodes', at, 0) by {
      forall ino, s | ino in nodes && ValidSlot(s)
        ensures Ptr(disk', nodes'[ino], s) == if Loc(ino, s) == at then 0 else Ptr(disk, nodes[ino], s)
      {
        GivePtr(g, disk, nodes, owner, at, disk', nodes', ino, s);
      }
    }
    GiveShape(g, disk, nodes, owner, b, at, disk', nodes');
    PointerOwns(g, disk, nodes, owner, at.ino, at.slot);
    GiveOwnersPoint(g, disk, nodes, owner, b, at, disk', nodes');
    GivePointersOwn(disk, nodes, owner, b, at, disk', nodes');
  }

  lemma GiveShape(g: Geometry, disk: Disk, nodes: map<nat, Inode>, owner: map<nat, Loc>, b: nat, at: Loc,
                  disk': Disk, nodes': map<nat, Inode>)
    requires CanGive(g, disk, nodes, owner, at) && b == Ptr(disk, nodes[at.ino], at.slot) < |disk|
    requires disk' == GiveDisk(g, disk, b, Holder(disk, nodes[at.ino], at.slot), at.slot)
    requires nodes' == nodes[at.ino := SetPtrNode(nodes[at.ino], at.slot, 0)]
    ensures UsedExcept(g, disk, disk', b, false)
    ensures Shape(g, disk', nodes')
  {
    hide Ptr, WithBit, WithWord, Bit, OwnersPoint;
    PointerOwns(g, disk, nodes, owner, at.ino, at.slot);
    if !at.slot.Addr? {
      PointerOwns(g, disk, nodes, owner, at.ino, Parent(at.slot));
    }
    UsedAfterGive(g, disk, b, Holder(disk, nodes[at.ino], at.slot), at.slot);
  }

  /** Giving back a block changes no byte of any file except those of the file block that lost it. */
  lemma GiveByte(g: Geometry, disk: Disk, nodes: map<nat, Inode>, owner: map<nat, Loc>, at: Loc,
                 disk': Disk, nodes': map<nat, Inode>, ino: nat, i: nat)
    requires CanGive(g, disk, nodes, owner, at) && Ptr(disk, nodes[at.ino], at.slot) < |disk|
    requires disk' == GiveDisk(g, disk, Ptr(disk, nodes[at.ino], at.slot), Holder(disk, nodes[at.ino], at.slot), at.slot)
    requires nodes' == nodes[at.ino := SetPtrNode(nodes[at.ino], at.slot, 0)]
    requires ino in nodes
    requires IsData(at.slot) && at.ino == ino ==> i / BLOCK_SIZE != Lo(at.slot)
    ensures ByteAt(disk', nodes'[ino], i) == ByteAt(disk, nodes[ino], i)
  {
    hide Ptr, Used, GiveDisk, OwnersPoint, PointersOwn, MarkedIffOwned;
    PointerOwns(g, disk, nodes, owner, at.ino, at.slot);
    if !at.slot.Addr? {
      PointerOwns(g, disk, nodes, owner, at.ino, Parent(at.slot));
    }
    if i / BLOCK_SIZE < MAX_BLOCKS {
      var s := DataSlot(i / BLOCK_SIZE);
      GivePtr(g, disk, nodes, owner, at, disk', nodes', ino, s);
      if Ptr(disk, nodes[ino], s) != 0 {
        PointerOwns(g, disk, nodes, owner, ino, s);
        WordAfterGive(g, disk, Ptr(disk, nodes[at.ino], at.slot), Holder(disk, nodes[at.ino], at.slot), at.slot,
                      Ptr(disk, nodes[ino], s), 0);
      }
    }
  }

  // ---- overwriting a data block --------------------------------------------

  lemma PokePtr(g: Geometry, disk: Disk, nodes: map<nat, Inode>, owner: map<nat, Loc>, at: Loc, v: Block,
                ino: nat, s: Slot)
    requires Inv(g, disk, nodes, owner)
    requires at.ino in nodes && ValidSlot(at.slot) && IsData(at.slot)
    requires 0 != Ptr(disk, nodes[at.ino], at.slot) < |disk|
    requires ino in nodes && ValidSlot(s)
    ensures Ptr(disk[Ptr(disk, nodes[at.ino], at.slot) := v], nodes[ino], s) == Ptr(disk, nodes[ino], s)
  {
    hide Used, OwnersPoint, PointersOwn, MarkedIffOwned;
    PointerOwns(g, disk, nodes, owner, at.ino, at.slot);
    if !s.Addr? {
      var t := Parent(s);
      if !t.Addr? && Ptr(disk, nodes[ino], Parent(t)) != 0 {
        PointerOwns(g, disk, nodes, owner, ino, Parent(t));
      }
      if Ptr(disk, nodes[ino], t) != 0 {
        PointerOwns(g, disk, nodes, owner, ino, t);
      }
    }
  }

  /** Overwriting the block of a data slot keeps the invariant and changes no pointer. */
  lemma PokeInv(g: Geometry, disk: Disk, nodes: map<nat, Inode>, owner: map<nat, Loc>, at: Loc, v: Block, disk': Disk)
    requires Inv(g, disk, nodes, owner)
    requires at.ino in nodes && ValidSlot(at.slot) && IsData(at.slot)
    requires 0 != Ptr(disk, nodes[at.ino], at.slot) < |disk|
    requires disk' == disk[Ptr(disk, nodes[at.ino], at.slot) := v]
    ensures Inv(g, disk', nodes, owner)
    ensures PtrsSame(disk, disk', nodes)
  {
    hide Ptr, Used, OwnersPoint, PointersOwn, MarkedIffOwned;
    PointerOwns(g, disk, nodes, owner, at.ino, at.slot);
    PokeShape(g, disk, nodes, owner, Ptr(disk, nodes[at.ino], at.slot), v);
    PokePtrs(g, disk, nodes, owner, at, v);
    SamePtrsOwn(g, disk, disk', nodes, owner);
  }

  lemma PokePtrs(g: Geometry, disk: Disk, nodes: map<nat, Inode>, owner: map<nat, Loc>, at: Loc, v: Block)
    requires Inv(g, disk, nodes, owner)
    requires at.ino in nodes && ValidSlot(at.slot) && IsData(at.slot)
    requires 0 != Ptr(disk, nodes[at.ino], at.slot) < |disk|
    ensures PtrsSame(disk, disk[Ptr(disk, nodes[at.ino], at.slot) := v], nodes)
  {
    hide Ptr, Used, OwnersPoint, PointersOwn, MarkedIffOwned;
    forall ino, s | ino in nodes && ValidSlot(s)
      ensures Ptr(disk[Ptr(disk, nodes[at.ino], at.slot) := v], nodes[ino], s) == Ptr(disk, nodes[ino], s)
    {
      PokePtr(g, disk, nodes, owner, at, v, ino, s);
    }
  }

  lemma PokeShape(g: Geometry, disk: Disk, nodes: map<nat, Inode>, owner: map<nat, Loc>, p: nat, v: Block)
    requires Shape(g, disk, nodes) && MarkedIffOwned(g, disk, owner) && g.meta <= p < |disk|
    ensures Shape(g, disk[p := v], nodes) && MarkedIffOwned(g, disk[p := v], owner)
  {
    var disk' := disk[p := v];
    forall c: nat | c < Capacity(g) ensures Used(g, disk', c) == Used(g, disk, c) {
    }
    assert disk'[0] == disk[0];
  }

  lemma SamePtrsOwn(g: Geometry, disk: Disk, disk': Disk, nodes: map<nat, Inode>, owner: map<nat, Loc>)
    requires OwnersPoint(g, disk, nodes, owner) && PointersOwn(disk, nodes, owner)
    requires PtrsSame(disk, disk', nodes)
    ensures OwnersPoint(g, disk', nodes, owner) && PointersOwn(disk', nodes, owner)
  {
    hide Ptr;
  }

  ghost predicate PtrsSame(disk: Disk, disk': Disk, nodes: map<nat, Inode>) {
    forall ino, s :: ino in nodes && ValidSlot(s) ==> Ptr(disk', nodes[ino], s) == Ptr(disk, nodes[ino], s)
  }

  lemma PokeByte(g: Geometry, disk: Disk, nodes: map<nat, Inode>, owner: map<nat, Loc>, at: Loc, v: Block,
                 ino: nat, i: nat)
    requires Inv(g, disk, nodes, owner)
    requires at.ino in nodes && ValidSlot(at.slot) && IsData(at.slot)
    requires 0 != Ptr(disk, nodes[at.ino], at.slot) < |disk|
    requires ino in nodes
    ensures ByteAt(disk[Ptr(disk, nodes[at.ino], at.slot) := v], nodes[ino], i) ==
            if ino == at.ino && i / BLOCK_SIZE == Lo(at.slot) then v[i % BLOCK_SIZE] else ByteAt(disk, nodes[ino], i)
  {
    hide Ptr, Used, OwnersPoint, PointersOwn, MarkedIffOwned;
    PointerOwns(g, disk, nodes, owner, at.ino, at.slot);
    DataSlotOnto(at.slot);
    if i / BLOCK_SIZE < MAX_BLOCKS {
      var s := DataSlot(i / BLOCK_SIZE);
      PokePtr(g, disk, nodes, owner, at, v, ino, s);
      if Ptr(disk, nodes[ino], s) != 0 {
        PointerOwns(g, disk, nodes, owner, ino, s);
      }
    }
  }

  // ---- growing -------------------------------------------------------------

  // Pointer s was kept, or was empty and serves the block that is being filled.
  predicate KeptOrFilled(disk: Disk, n: Inode, disk': Disk, n': Inode, s: Slot, filling: bool, f: nat) {
    Ptr(disk', n', s) == Ptr(disk, n, s) || (filling && Serves(s, f) && Ptr(disk, n, s) == 0)
  }

  // No pointer was lost or moved, and only slots that serve block f of file ino were filled.
  ghost predicate Grown(disk: Disk, nodes: map<nat, Inode>, disk': Disk, nodes': map<nat, Inode>, ino: nat, f: nat) {
    && nodes'.Keys == nodes.Keys
    && forall i :: i in nodes ==> GrownFile(disk, nodes[i], disk', nodes'[i], i == ino, f)
  }

  ghost predicate GrownFile(disk: Disk, n: Inode, disk': Disk, n': Inode, filling: bool, f: nat) {
    forall s :: ValidSlot(s) ==> KeptOrFilled(disk, n, disk', n', s, filling, f)
  }

  lemma FilledGrown(disk: Disk, nodes: map<nat, Inode>, disk': Disk, nodes': map<nat, Inode>, at: Loc, b: nat, f: nat)
    requires at.ino in nodes && Ptr(disk, nodes[at.ino], at.slot) == 0 && Serves(at.slot, f)
    requires PtrsExcept(disk, nodes, disk', nodes', at, b)
    ensures Grown(disk, nodes, disk', nodes', at.ino, f)
  {
    hide Ptr, Serves;
  }

  lemma GrownRefl(disk: Disk, nodes: map<nat, Inode>, ino: nat, f: nat)
    ensures Grown(disk, nodes, disk, nodes, ino, f)
  {
  }

  lemma GrownKeeps(disk: Disk, nodes: map<nat, Inode>, disk': Disk, nodes': map<nat, Inode>, ino: nat, f: nat, s: Slot)
    requires Grown(disk, nodes, disk', nodes', ino, f) && ino in nodes && ValidSlot(s)
    requires Ptr(disk, nodes[ino], s) != 0
    ensures Ptr(disk', nodes'[ino], s) == Ptr(disk, nodes[ino], s)
  {
    assert GrownFile(disk, nodes[ino], disk', nodes'[ino], true, f);
    assert KeptOrFilled(disk, nodes[ino], disk', nodes'[ino], s, true, f);
  }

  lemma GrownTrans(d0: Disk, n0: map<nat, Inode>, d1: Disk, n1: map<nat, Inode>, d2: Disk, n2: map<nat, Inode>,
                   ino: nat, f: nat)
    requires Grown(d0, n0, d1, n1, ino, f)
    requires Grown(d1, n1, d2, n2, ino, f)
    ensures Grown(d0, n0, d2, n2, ino, f)
  {
    hide Ptr, Serves;
    forall i | i in n0 ensures GrownFile(d0, n0[i], d2, n2[i], i == ino, f) {
      assert GrownFile(d0, n0[i], d1, n1[i], i == ino, f) && GrownFile(d1, n1[i], d2, n2[i], i == ino, f);
      forall s | ValidSlot(s) ensures KeptOrFilled(d0, n0[i], d2, n2[i], s, i == ino, f) {
        assert KeptOrFilled(d0, n0[i], d1, n1[i], s, i == ino, f);
        assert KeptOrFilled(d1, n1[i], d2, n2[i], s, i == ino, f);
      }
    }
  }

  lemma PokeGrown(d0: Disk, n0: map<nat, Inode>, d1: Disk, d2: Disk, n1: map<nat, Inode>, ino: nat, f: nat)
    requires Grown(d0, n0, d1, n1, ino, f) && PtrsSame(d1, d2, n1)
    ensures Grown(d0, n0, d2, n1, ino, f)
  {
    hide Ptr, Serves;
    forall i | i in n0 ensures GrownFile(d0, n0[i], d2, n1[i], i == ino, f) {
      assert GrownFile(d0, n0[i], d1, n1[i], i == ino, f);
      forall s | ValidSlot(s) ensures KeptOrFilled(d0, n0[i], d2, n1[i], s, i == ino, f) {
        assert KeptOrFilled(d0, n0[i], d1, n1[i], s, i == ino, f);
        assert Ptr(d2, n1[i], s) == Ptr(d1, n1[i], s);
      }
    }
  }

  lemma SameBytesRefl(disk: Disk, nodes: map<nat, Inode>)
    ensures SameBytes(disk, nodes, disk, nodes)
  {
  }

  lemma SameBytesTrans(d0: Disk, n0: map<nat, Inode>, d1: Disk, n1: map<nat, Inode>, d2: Disk, n2: map<nat, Inode>)
    requires SameBytes(d0, n0, d1, n1) && SameBytes(d1, n1, d2, n2)
    ensures SameBytes(d0, n0, d2, n2)
  {
    forall ino | ino in n0 ensures SameFile(d0, n0[ino], d2, n2[ino]) {
      assert SameFile(d0, n0[ino], d1, n1[ino]) && SameFile(d1, n1[ino], d2, n2[ino]);
      forall i: nat ensures ByteAt(d2, n2[ino], i) == ByteAt(d0, n0[ino], i) {
        assert ByteAt(d1, n1[ino], i) == ByteAt(d0, n0[ino], i);
      }
    }
  }

  // ---- pointers of the other files -----------------------------------------

  ghost predicate SamePtrs(disk: Disk, n: Inode, disk': Disk, n': Inode) {
    forall s :: ValidSlot(s) ==> Ptr(disk', n', s) == Ptr(disk, n, s)
  }

  // No file but ino had a pointer changed.
  ghost predicate OthersKept(disk: Disk, nodes: map<nat, Inode>, disk': Disk, nodes': map<nat, Inode>, ino: nat) {
    && nodes'.Keys == nodes.Keys
    && forall i :: i in nodes && i != ino ==> SamePtrs(disk, nodes[i], disk', nodes'[i])
  }

  lemma OthersRefl(disk: Disk, nodes: map<nat, Inode>, ino: nat)
    ensures OthersKept(disk, nodes, disk, nodes, ino)
  {
    hide Ptr;
  }

  lemma OthersTrans(d0: Disk, n0: map<nat, Inode>, d1: Disk, n1: map<nat, Inode>, d2: Disk, n2: map<nat, Inode>, ino: nat)
    requires OthersKept(d0, n0, d1, n1, ino) && OthersKept(d1, n1, d2, n2, ino)
    ensures OthersKept(d0, n0, d2, n2, ino)
  {
    hide Ptr;
    forall i | i in n0 && i != ino ensures SamePtrs(d0, n0[i], d2, n2[i]) {
      assert SamePtrs(d0, n0[i], d1, n1[i]) && SamePtrs(d1, n1[i], d2, n2[i]);
    }
  }

  lemma PtrsOthers(disk: Disk, nodes: map<nat, Inode>, disk': Disk, nodes': map<nat, Inode>, at: Loc, v: nat)
    requires PtrsExcept(disk, nodes, disk', nodes', at, v)
    ensures OthersKept(disk, nodes, disk', nodes', at.ino)
  {
    hide Ptr;
  }

  lemma GrownOthers(disk: Disk, nodes: map<nat, Inode>, disk': Disk, nodes': map<nat, Inode>, ino: nat, f: nat)
    requires Grown(disk, nodes, disk', nodes', ino, f)
    ensures OthersKept(disk, nodes, disk', nodes', ino)
  {
    hide Ptr, Serves;
    forall i | i in nodes && i != ino ensures SamePtrs(disk, nodes[i], disk', nodes'[i]) {
      assert GrownFile(disk, nodes[i], disk', nodes'[i], false, f);
      forall s | ValidSlot(s) ensures Ptr(disk', nodes'[i], s) == Ptr(disk, nodes[i], s) {
        assert KeptOrFilled(disk, nodes[i], disk', nodes'[i], s, false, f);
      }
    }
  }

  lemma DenseKept(disk: Disk, n: Inode, disk': Disk, n': Inode, e: nat)
    requires SamePtrs(disk, n, disk', n') && Dense(disk, n, e)
    ensures Dense(disk', n', e)
  {
    hide Ptr;
  }

  /** A dense file grown at or below its end by one block stays dense. */
  lemma GrownDense(disk: Disk, nodes: map<nat, Inode>, disk': Disk, nodes': map<nat, Inode>, ino: nat, f: nat, e: nat)
    requires Grown(disk, nodes, disk', nodes', ino, f) && ino in nodes
    requires Dense(disk, nodes[ino], e) && f <= e && f < MAX_BLOCKS
    requires forall s :: ValidSlot(s) && Serves(s, f) ==> Ptr(disk', nodes'[ino], s) != 0
    ensures Dense(disk', nodes'[ino], if f < e then e else f + 1)
  {
    hide Ptr;
    var e' := if f < e then e else f + 1;
    forall s | ValidSlot(s) ensures Ptr(disk', nodes'[ino], s) != 0 <==> Lo(s) < e' {
      assert GrownFile(disk, nodes[ino], disk', nodes'[ino], true, f);
      assert KeptOrFilled(disk, nodes[ino], disk', nodes'[ino], s, true, f);
      assert Ptr(disk, nodes[ino], s) != 0 <==> Lo(s) < e;
      if Lo(s) == f {
        assert Serves(s, f);
      }
    }
  }

  // ---- trimming ------------------------------------------------------------

  // No pointer kept in the block that slot s names is set.
  ghost predicate Empty(disk: Disk, n: Inode, s: Slot) {
    forall t :: ValidSlot(t) && !t.Addr? && Parent(t) == s ==> Ptr(disk, n, t) == 0
  }

  // What freeing file block f leaves of slot s: an indirect slot goes when nothing is left under it.
  ghost predicate FreedSlot(disk: Disk, n: Inode, disk': Disk, n': Inode, s: Slot, f: nat) {
    Ptr(disk', n', s) ==
    if !Serves(s, f) then Ptr(disk, n, s)
    else if IsData(s) || Empty(disk', n', s) then 0
    else Ptr(disk, n, s)
  }

  ghost predicate Freed(disk: Disk, n: Inode, disk': Disk, n': Inode, f: nat) {
    && n'.size == n.size
    && (forall s :: ValidSlot(s) ==> FreedSlot(disk, n, disk', n', s, f))
    && (forall i: nat :: i / BLOCK_SIZE != f ==> ByteAt(disk', n', i) == ByteAt(disk, n, i))
  }

  // Blocks fbs .. f of a dense file of e blocks are gone: does slot s still have a block to serve?
  predicate Alive(s: Slot, fbs: nat, f: nat, e: nat) {
    Lo(s) < e && (Lo(s) < fbs || (f < Hi(s) && f < e))
  }

  predicate TrimmedSlot(disk: Disk, n: Inode, disk': Disk, n': Inode, s: Slot, fbs: nat, f: nat, e: nat) {
    Ptr(disk', n', s) == if Alive(s, fbs, f, e) then Ptr(disk, n, s) else 0
  }

  ghost predicate Trimmed(disk: Disk, n: Inode, disk': Disk, n': Inode, fbs: nat, f: nat, e: nat) {
    && n'.size == n.size
    && (forall s :: ValidSlot(s) ==> TrimmedSlot(disk, n, disk', n', s, fbs, f, e))
    && (forall i: nat :: i < fbs * BLOCK_SIZE ==> ByteAt(disk', n', i) == ByteAt(disk, n, i))
  }

  function FirstChild(s: Slot): (t: Slot)
    requires ValidSlot(s) && !IsData(s)
    ensures ValidSlot(t) && !t.Addr? && Parent(t) == s && Lo(t) == Lo(s)
  {
    match s
    case Addr(k) => if k == SIND_IDX then Sind(0) else Mid(0)
    case Mid(m) => Dind(m, 0)
  }

  function ChildServing(s: Slot, f: nat): (t: Slot)
    requires ValidSlot(s) && !IsData(s) && Serves(s, f)
    ensures ValidSlot(t) && !t.Addr? && Parent(t) == s && Serves(t, f)
  {
    match s
    case Addr(k) => if k == SIND_IDX then Sind(f - NUM_DIRECT) else Mid((f - DIND_BASE) / NUM_SIND)
    case Mid(m) => Dind(m, f - DIND_BASE - NUM_SIND * m)
  }

  lemma ChildRange(t: Slot)
    requires ValidSlot(t) && !t.Addr?
    ensures Lo(Parent(t)) <= Lo(t) < Hi(t) <= Hi(Parent(t))
  {
  }

  // An indirect slot is alive exactly when one of its children is.
  lemma AliveChildren(s: Slot, fbs: nat, f: nat, e: nat)
    requires ValidSlot(s) && !IsData(s) && fbs <= f
    ensures Alive(s, fbs, f, e) <==> exists t :: ValidSlot(t) && !t.Addr? && Parent(t) == s && Alive(t, fbs, f, e)
  {
    if Alive(s, fbs, f, e) {
      if Lo(s) < fbs || f <= Lo(s) {
        assert Alive(FirstChild(s), fbs, f, e);
      } else {
        assert Alive(ChildServing(s, f), fbs, f, e);
      }
    }
    forall t | ValidSlot(t) && !t.Addr? && Parent(t) == s && Alive(t, fbs, f, e) ensures Alive(s, fbs, f, e) {
      ChildRange(t);
    }
  }

  /** Freeing block f moves a file from "blocks fbs .. f gone" to "blocks fbs .. f + 1 gone". */
  lemma TrimStep(d0: Disk, n0: Inode, d1: Disk, n1: Inode, d2: Disk, n2: Inode, fbs: nat, f: nat, e: nat)
    requires Dense(d0, n0, e) && fbs <= f < e && f < MAX_BLOCKS
    requires Trimmed(d0, n0, d1, n1, fbs, f, e) && Freed(d1, n1, d2, n2, f)
    ensures Trimmed(d0, n0, d2, n2, fbs, f + 1, e)
  {
    forall s | ValidSlot(s) ensures TrimmedSlot(d0, n0, d2, n2, s, fbs, f + 1, e) {
      TrimSlot(d0, n0, d1, n1, d2, n2, fbs, f, e, s);
    }
  }

  lemma {:induction false} TrimSlot(d0: Disk, n0: Inode, d1: Disk, n1: Inode, d2: Disk, n2: Inode,
                                    fbs: nat, f: nat, e: nat, s: Slot)
    requires Dense(d0, n0, e) && fbs <= f < e && f < MAX_BLOCKS && ValidSlot(s)
    requires Trimmed(d0, n0, d1, n1, fbs, f, e) && Freed(d1, n1, d2, n2, f)
    ensures TrimmedSlot(d0, n0, d2, n2, s, fbs, f + 1, e)
    decreases Hi(s) - Lo(s), if s.Addr? then 2 else if s.Mid? then 1 else 0
  {
    hide Ptr;
    assert TrimmedSlot(d0, n0, d1, n1, s, fbs, f, e);
    assert FreedSlot(d1, n1, d2, n2, s, f);
    if Serves(s, f) && !IsData(s) {
      AliveChildren(s, fbs, f + 1, e);
      forall t | ValidSlot(t) && !t.Addr? && Parent(t) == s
        ensures Ptr(d2, n2, t) != 0 <==> Alive(t, fbs, f + 1, e)
      {
        TrimSlot(d0, n0, d1, n1, d2, n2, fbs, f, e, t);
        assert Ptr(d0, n0, t) != 0 <==> Lo(t) < e;
      }
    }
  }

  // ---- the size field ------------------------------------------------------

  lemma ResizePtr(disk: Disk, n: Inode, z: nat, s: Slot)
    ensures Ptr(disk, n.(size := z), s) == Ptr(disk, n, s)
  {
  }

  lemma ResizeBytes(disk: Disk, n: Inode, z: nat)
    ensures forall i: nat :: ByteAt(disk, n.(size := z), i) == ByteAt(disk, n, i)
    ensures forall e: nat :: Dense(disk, n, e) ==> Dense(disk, n.(size := z), e)
  {
    forall i: nat ensures ByteAt(disk, n.(size := z), i) == ByteAt(disk, n, i) {
      if i / BLOCK_SIZE < MAX_BLOCKS {
        ResizePtr(disk, n, z, DataSlot(i / BLOCK_SIZE));
      }
    }
    forall e: nat | Dense(disk, n, e) ensures Dense(disk, n.(size := z), e) {
      forall s | ValidSlot(s) ensures Ptr(disk, n.(size := z), s) != 0 <==> Lo(s) < e {
        ResizePtr(disk, n, z, s);
      }
    }
  }

  lemma ResizeInv(g: Geometry, disk: Disk, nodes: map<nat, Inode>, owner: map<nat, Loc>, ino: nat, z: nat)
    requires Inv(g, disk, nodes, owner) && ino in nodes && z <= MAX_BLOCKS * BLOCK_SIZE
    ensures Inv(g, disk, nodes[ino := nodes[ino].(size := z)], owner)
  {
    hide Ptr, OwnersPoint, PointersOwn, MarkedIffOwned;
    var nodes' := nodes[ino := nodes[ino].(size := z)];
    forall i, s | i in nodes && ValidSlot(s) ensures Ptr(disk, nodes'[i], s) == Ptr(disk, nodes[i], s) {
      ResizePtr(disk, nodes[ino], z, s);
    }
    ResizeOwns(g, disk, nodes, nodes', owner);
  }

  lemma ResizeOwns(g: Geometry, disk: Disk, nodes: map<nat, Inode>, nodes': map<nat, Inode>, owner: map<nat, Loc>)
    requires OwnersPoint(g, disk, nodes, owner) && PointersOwn(disk, nodes, owner)
    requires nodes'.Keys == nodes.Keys
    requires forall i, s :: i in nodes && ValidSlot(s) ==> Ptr(disk, nodes'[i], s) == Ptr(disk, nodes[i], s)
    ensures OwnersPoint(g, disk, nodes', owner) && PointersOwn(disk, nodes', owner)
  {
    hide Ptr;
  }
}
