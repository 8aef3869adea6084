/**
How many blocks the files of a disk take: a count by file sizes alone, equal to the
number of data blocks in use. It decides exactly which writes find no space.
*/
module CofsCensus {
  import opened Block
  import opened Sums
  import opened CofsLayout
  import opened Cofs

  // Data blocks that the bitmap has bits for: block_alloc looks at whole bitmap blocks.
  function DataBlocks(g: Geometry): int {
    Capacity(g) - g.meta
  }

  // Data blocks that lie on the device.
  function DeviceBlocks(g: Geometry): int {
    g.size - g.meta
  }

  // Blocks that a file of e blocks takes, its indirect blocks included.
  function SlotCount(e: nat): nat {
    e + (if e > NUM_DIRECT then 1 else 0)
      + (if e > DIND_BASE then 1 + (e - DIND_BASE + NUM_SIND - 1) / NUM_SIND else 0)
  }

  lemma SlotCountGrows(a: nat, b: nat)
    requires a <= b
    ensures SlotCount(a) <= SlotCount(b)
  {
  }

  // ---- the slots of a file -----------------------------------------------------------

  // The pointers that file block k is the first to need.
  function SlotsAt(k: nat): set<Slot>
    requires k < MAX_BLOCKS
  {
    {DataSlot(k)}
    + (if k == NUM_DIRECT then {Addr(SIND_IDX)} else {})
    + (if k == DIND_BASE then {Addr(DIND_IDX)} else {})
    + (if NeedsMid(k) then {Mid((k - DIND_BASE) / NUM_SIND)} else {})
  }

  lemma SlotsAtIff(k: nat, s: Slot)
    requires k < MAX_BLOCKS
    ensures s in SlotsAt(k) <==> ValidSlot(s) && Lo(s) == k
  {
    if ValidSlot(s) && IsData(s) {
      DataSlotOnto(s);
    }
  }

  ghost function SlotsBelow(e: nat): set<Slot>
    requires e <= MAX_BLOCKS
  {
    if e == 0 then {} else SlotsBelow(e - 1) + SlotsAt(e - 1)
  }

  lemma {:induction false} SlotsBelowIff(e: nat, s: Slot)
    requires e <= MAX_BLOCKS
    ensures s in SlotsBelow(e) <==> ValidSlot(s) && Lo(s) < e
  {
    hide SlotsAt, Lo;
    if e > 0 {
      SlotsBelowIff(e - 1, s);
      SlotsAtIff(e - 1, s);
    }
  }

  lemma SlotsApart(k: nat)
    requires k < MAX_BLOCKS
    ensures SlotsBelow(k) !! SlotsAt(k)
  {
    hide SlotsAt, Lo, SlotsBelow;
    forall s | s in SlotsAt(k) ensures s !in SlotsBelow(k) {
      SlotsBelowIff(k, s);
      SlotsAtIff(k, s);
    }
  }

  lemma SlotsBelowStep(e: nat)
    requires e <= MAX_BLOCKS
    ensures SlotsBelow(e) == if e == 0 then {} else SlotsBelow(e - 1) + SlotsAt(e - 1)
  {
    hide SlotsAt;
  }

  lemma {:induction false} SlotsBelowCount(e: nat)
    requires e <= MAX_BLOCKS
    ensures |SlotsBelow(e)| == SlotCount(e)
  {
    hide SlotsAt, SlotCount, Lo, ValidSlot, SlotsBelow;
    SlotsBelowStep(e);
    if e > 0 {
      SlotsBelowCount(e - 1);
      SlotsAtCount(e - 1);
      SlotsApart(e - 1);
      UnionCount(SlotsBelow(e - 1), SlotsAt(e - 1));
    } else {
      assert SlotCount(0) == 0 by { NoSlots(); }
    }
  }

  lemma UnionCount(a: set<Slot>, b: set<Slot>)
    requires a !! b
    ensures |a + b| == |a| + |b|
  {
  }

  lemma NoSlots()
    ensures SlotCount(0) == 0
  {
  }

  lemma SlotsAtCount(k: nat)
    requires k < MAX_BLOCKS
    ensures |SlotsAt(k)| == SlotCount(k + 1) - SlotCount(k)
  {
    NextCount(k);
    hide SlotCount;
    var m := Mid(if k >= DIND_BASE then (k - DIND_BASE) / NUM_SIND else 0);
    assert IsData(DataSlot(k));
    UpToFour(DataSlot(k), Addr(SIND_IDX), Addr(DIND_IDX), m, k == NUM_DIRECT, k == DIND_BASE, NeedsMid(k));
  }

  predicate NeedsMid(k: nat) {
    k >= DIND_BASE && (k - DIND_BASE) % NUM_SIND == 0
  }

  lemma UpToFour(d: Slot, a: Slot, b: Slot, m: Slot, x: bool, y: bool, z: bool)
    requires d != a && d != b && d != m && a != b && a != m && b != m
    ensures |{d} + (if x then {a} else {}) + (if y then {b} else {}) + (if z then {m} else {})|
         == 1 + (if x then 1 else 0) + (if y then 1 else 0) + (if z then 1 else 0)
  {
    var s1 := {d} + if x then {a} else {};
    var s2 := s1 + if y then {b} else {};
    assert |s1| == 1 + if x then 1 else 0;
    assert |s2| == |s1| + if y then 1 else 0;
  }

  lemma NextCount(k: nat)
    ensures SlotCount(k + 1) - SlotCount(k)
         == 1 + (if k == NUM_DIRECT then 1 else 0) + (if k == DIND_BASE then 1 else 0) + (if NeedsMid(k) then 1 else 0)
  {
    if k > DIND_BASE {
      DoubleCount(k - DIND_BASE);
    }
  }

  lemma DoubleCount(x: nat)
    ensures (x + 1 + NUM_SIND - 1) / NUM_SIND == (x + NUM_SIND - 1) / NUM_SIND + if x % NUM_SIND == 0 then 1 else 0
  {
  }

  // ---- the blocks of a file ------------------------------------------------------------

  ghost function Owned(owner: map<nat, Loc>, ino: nat, slots: set<Slot>): set<nat> {
    set b | b in owner && owner[b].ino == ino && owner[b].slot in slots
  }

  ghost function OwnedBy(owner: map<nat, Loc>, ino: nat): set<nat> {
    set b | b in owner && owner[b].ino == ino
  }

  /** At most one block for each pointer, and one for each exactly when none is empty. */
  lemma {:induction false} OwnedCount(g: Geometry, disk: Disk, nodes: map<nat, Inode>, owner: map<nat, Loc>, ino: nat, slots: set<Slot>)
    requires Inv(g, disk, nodes, owner) && ino in nodes && forall s :: s in slots ==> ValidSlot(s)
    ensures |Owned(owner, ino, slots)| <= |slots|
    ensures |Owned(owner, ino, slots)| == |slots| <==> forall s :: s in slots ==> Ptr(disk, nodes[ino], s) != 0
    decreases slots
  {
    hide Inv, Ptr;
    if slots == {} {
      assert Owned(owner, ino, slots) == {};
    } else {
      var s :| s in slots;
      var rest := slots - {s};
      OwnedCount(g, disk, nodes, owner, ino, rest);
      OwnedOne(g, disk, nodes, owner, ino, slots, s);
      assert slots == rest + {s};
    }
  }

  lemma OwnedOne(g: Geometry, disk: Disk, nodes: map<nat, Inode>, owner: map<nat, Loc>, ino: nat, slots: set<Slot>, s: Slot)
    requires Inv(g, disk, nodes, owner) && ino in nodes && s in slots && ValidSlot(s)
    ensures var p := Ptr(disk, nodes[ino], s);
            && Owned(owner, ino, slots) == Owned(owner, ino, slots - {s}) + (if p != 0 then {p} else {})
            && p !in Owned(owner, ino, slots - {s})
  {
    hide Ptr, Shape, MarkedIffOwned;
    var p := Ptr(disk, nodes[ino], s);
    if p != 0 {
      assert p in owner && owner[p] == Loc(ino, s);
    }
    MetaPositive(g, disk, nodes);
    forall b | b in Owned(owner, ino, slots) ensures b in Owned(owner, ino, slots - {s}) || (b == p && p != 0) {
      assert g.meta <= b && Ptr(disk, nodes[ino], owner[b].slot) == b;
    }
  }

  lemma MetaPositive(g: Geometry, disk: Disk, nodes: map<nat, Inode>)
    requires Shape(g, disk, nodes)
    ensures g.meta > 0
  {
  }

  // A file whose pointers all lie below block e: its blocks, counted.
  lemma FileCount(g: Geometry, disk: Disk, nodes: map<nat, Inode>, owner: map<nat, Loc>, ino: nat, e: nat)
    requires Inv(g, disk, nodes, owner) && ino in nodes && e <= MAX_BLOCKS
    requires forall s :: ValidSlot(s) && Ptr(disk, nodes[ino], s) != 0 ==> Lo(s) < e
    ensures |OwnedBy(owner, ino)| <= SlotCount(e)
    ensures |OwnedBy(owner, ino)| == SlotCount(e) <==>
              forall s :: ValidSlot(s) && Lo(s) < e ==> Ptr(disk, nodes[ino], s) != 0
  {
    hide SlotsBelow, SlotCount, Lo;
    var slots := SlotsBelow(e);
    SlotsBelowCount(e);
    forall s ensures s in slots <==> ValidSlot(s) && Lo(s) < e {
      SlotsBelowIff(e, s);
    }
    OwnedCount(g, disk, nodes, owner, ino, slots);
    OwnersAre(g, disk, nodes, owner, ino);
    hide Inv, Ptr;
    assert OwnedBy(owner, ino) == Owned(owner, ino, slots);
  }

  lemma OwnersAre(g: Geometry, disk: Disk, nodes: map<nat, Inode>, owner: map<nat, Loc>, ino: nat)
    requires Inv(g, disk, nodes, owner) && ino in nodes
    ensures forall b :: b in owner && owner[b].ino == ino ==>
              ValidSlot(owner[b].slot) && Ptr(disk, nodes[ino], owner[b].slot) == b != 0
  {
    hide Ptr, MarkedIffOwned, PointersOwn;
    MetaPositive(g, disk, nodes);
  }

  // ---- the blocks of all files -------------------------------------------------------------

  lemma OwnerRests(owner: map<nat, Loc>, counts: map<nat, nat>, i: nat, rest: map<nat, Loc>)
    requires forall b :: b in owner ==> owner[b].ino in counts
    requires forall i :: i in counts ==> |OwnedBy(owner, i)| == counts[i]
    requires rest == map b | b in owner && owner[b].ino != i :: owner[b]
    ensures forall b :: b in rest ==> rest[b].ino in counts - {i}
    ensures forall j :: j in counts - {i} ==> |OwnedBy(rest, j)| == (counts - {i})[j]
  {
    hide OwnedBy;
    forall j | j in counts - {i} ensures |OwnedBy(rest, j)| == counts[j] {
      OwnerRest(owner, i, rest, j);
    }
  }

  lemma OwnerRest(owner: map<nat, Loc>, i: nat, rest: map<nat, Loc>, j: nat)
    requires rest == map b | b in owner && owner[b].ino != i :: owner[b]
    ensures j != i ==> OwnedBy(rest, j) == OwnedBy(owner, j)
  {
  }

  lemma OwnerSplit(owner: map<nat, Loc>, i: nat, rest: map<nat, Loc>)
    requires rest == map b | b in owner && owner[b].ino != i :: owner[b]
    ensures |owner| == |rest| + |OwnedBy(owner, i)|
  {
    assert owner.Keys == rest.Keys + OwnedBy(owner, i);
    assert |owner| == |owner.Keys| && |rest| == |rest.Keys|;
  }

  lemma {:induction false} OwnerTotal(owner: map<nat, Loc>, counts: map<nat, nat>)
    requires forall b :: b in owner ==> owner[b].ino in counts
    requires forall i :: i in counts ==> |OwnedBy(owner, i)| == counts[i]
    ensures |owner| == Sum(counts)
    decreases |counts|
  {
    if counts == map[] {
      assert owner == map[];
    } else {
      var i :| i in counts;
      var rest := map b | b in owner && owner[b].ino != i :: owner[b];
      hide OwnedBy, Sum;
      OwnerRests(owner, counts, i, rest);
      OwnerTotal(rest, counts - {i});
      SumPick(counts, i);
      OwnerSplit(owner, i, rest);
    }
  }

  /** The blocks in use fit the disk, and are all of it exactly when the disk is full. */
  lemma OwnerBound(g: Geometry, disk: Disk, nodes: map<nat, Inode>, owner: map<nat, Loc>)
    requires Inv(g, disk, nodes, owner)
    ensures |owner| <= DataBlocks(g)
    ensures Full(g, disk) ==> |owner| == DataBlocks(g)
  {
    hide Ptr, PointersOwn, Used;
    var all := Range(g.meta, Capacity(g));
    RangeCount(g.meta, Capacity(g));
    assert owner.Keys <= all;
    SetCount(owner.Keys, all);
    assert |owner| == |owner.Keys|;
    if Full(g, disk) {
      assert owner.Keys == all;
    }
  }

  /** Blocks that are all on the device are no more than it has. */
  lemma DeviceBound(g: Geometry, disk: Disk, nodes: map<nat, Inode>, owner: map<nat, Loc>)
    requires Inv(g, disk, nodes, owner) && OnDevice(g, owner)
    ensures |owner| <= DeviceBlocks(g)
  {
    hide Ptr, PointersOwn, MarkedIffOwned, Used, Range;
    RangeCount(g.meta, g.size);
    assert owner.Keys <= Range(g.meta, g.size);
    SetCount(owner.Keys, Range(g.meta, g.size));
    assert |owner| == |owner.Keys|;
  }

  /** Taking lowest first stays on the device exactly as long as the blocks taken are no more than it has. */
  lemma DeviceIff(g: Geometry, disk: Disk, nodes: map<nat, Inode>, owner0: map<nat, Loc>, owner: map<nat, Loc>)
    requires Inv(g, disk, nodes, owner) && OnDevice(g, owner0) && TakenLow(g, owner0, owner)
    ensures OnDevice(g, owner) <==> |owner| <= DeviceBlocks(g)
  {
    hide Inv;
    if OnDevice(g, owner) {
      DeviceBound(g, disk, nodes, owner);
    }
  }

  // ---- the census --------------------------------------------------------------------------

  ghost predicate AllDense(disk: Disk, nodes: map<nat, Inode>) {
    forall i :: i in nodes ==> Dense(disk, nodes[i], Blocks(nodes[i].size))
  }

  ghost function Counts(files: map<nat, seq<byte>>): (m: map<nat, nat>)
    ensures m.Keys == files.Keys
  {
    map i | i in files :: SlotCount(Blocks(|files[i]|))
  }

  // The blocks that files of these sizes take.
  ghost function Demand(files: map<nat, seq<byte>>): nat {
    Sum(Counts(files))
  }

  ghost function View(disk: Disk, nodes: map<nat, Inode>): (files: map<nat, seq<byte>>)
    ensures files.Keys == nodes.Keys
    ensures forall i :: i in nodes ==> |files[i]| == nodes[i].size
  {
    map i | i in nodes :: Content(disk, nodes[i])
  }

  lemma DenseCount(g: Geometry, disk: Disk, nodes: map<nat, Inode>, owner: map<nat, Loc>, ino: nat)
    requires Inv(g, disk, nodes, owner) && ino in nodes && Dense(disk, nodes[ino], Blocks(nodes[ino].size))
    ensures |OwnedBy(owner, ino)| == SlotCount(Blocks(nodes[ino].size))
  {
    assert Blocks(nodes[ino].size) <= MAX_BLOCKS;
    hide Ptr, Lo, SlotCount, Inv;
    FileCount(g, disk, nodes, owner, ino, Blocks(nodes[ino].size));
  }

  /** Conservation: the data blocks in use are as many as the sizes of the files call for. */
  lemma Census(g: Geometry, disk: Disk, nodes: map<nat, Inode>, owner: map<nat, Loc>)
    requires Inv(g, disk, nodes, owner) && AllDense(disk, nodes)
    ensures |owner| == Demand(View(disk, nodes)) <= DataBlocks(g)
  {
    hide Sum, SlotCount, Content, Dense;
    var counts := Counts(View(disk, nodes));
    OwnerBound(g, disk, nodes, owner);
    OwnersInNodes(g, disk, nodes, owner);
    hide Inv;
    forall i | i in counts ensures |OwnedBy(owner, i)| == counts[i] {
      DenseCount(g, disk, nodes, owner, i);
    }
    OwnerTotal(owner, counts);
  }

  lemma OwnersInNodes(g: Geometry, disk: Disk, nodes: map<nat, Inode>, owner: map<nat, Loc>)
    requires Inv(g, disk, nodes, owner)
    ensures forall b :: b in owner ==> owner[b].ino in nodes
  {
    hide Ptr, MarkedIffOwned, PointersOwn;
  }

  /** While a file is being extended to e blocks, the files with that one extended need more blocks than are in use. */
  lemma ShortCount(g: Geometry, disk: Disk, nodes: map<nat, Inode>, owner: map<nat, Loc>, ino: nat,
                   files: map<nat, seq<byte>>, e: nat)
    requires Inv(g, disk, nodes, owner) && ino in nodes && files.Keys == nodes.Keys
    requires Short(disk, nodes[ino], e) && e <= MAX_BLOCKS && e <= Blocks(|files[ino]|)
    requires forall i :: i in nodes && i != ino ==>
               |files[i]| == nodes[i].size && Dense(disk, nodes[i], Blocks(nodes[i].size))
    ensures Demand(files) > |owner|
  {
    hide Sum, Ptr, Lo, Dense, Inv;
    OwnersInNodes(g, disk, nodes, owner);
    FileCount(g, disk, nodes, owner, ino, e);
    SlotCountGrows(e, Blocks(|files[ino]|));
    hide SlotCount;
    var was := Counts(files);
    var now := was[ino := |OwnedBy(owner, ino)|];
    forall i | i in now ensures |OwnedBy(owner, i)| == now[i] {
      if i != ino {
        DenseCount(g, disk, nodes, owner, i);
      }
    }
    hide Dense, Short;
    OwnerTotal(owner, now);
    SumUpdate(was, ino, |OwnedBy(owner, ino)|);
  }

  /** A disk that is full while a file is being extended cannot hold the files with that one extended. */
  lemma ShortDemand(g: Geometry, disk: Disk, nodes: map<nat, Inode>, owner: map<nat, Loc>, ino: nat,
                    files: map<nat, seq<byte>>, e: nat)
    requires Inv(g, disk, nodes, owner) && Full(g, disk) && ino in nodes && files.Keys == nodes.Keys
    requires Short(disk, nodes[ino], e) && e <= MAX_BLOCKS && e <= Blocks(|files[ino]|)
    requires forall i :: i in nodes && i != ino ==>
               |files[i]| == nodes[i].size && Dense(disk, nodes[i], Blocks(nodes[i].size))
    ensures Demand(files) > DataBlocks(g)
  {
    hide Demand, Dense, Inv, Short, Full;
    OwnerBound(g, disk, nodes, owner);
    ShortCount(g, disk, nodes, owner, ino, files, e);
  }

  /** Longer files, and more of them, never need fewer blocks. */
  lemma DemandMono(files: map<nat, seq<byte>>, plan: map<nat, seq<byte>>)
    requires forall i :: i in files ==> i in plan && |files[i]| <= |plan[i]|
    ensures Demand(files) <= Demand(plan)
  {
    var a, b := Counts(files), Counts(plan);
    forall i | i in a ensures i in b && a[i] <= b[i] {
      SlotCountGrows(Blocks(|files[i]|), Blocks(|plan[i]|));
    }
    SumMono(a, b);
  }

  lemma DemandOne(files: map<nat, seq<byte>>, i: nat)
    requires i in files
    ensures Demand(files) >= Blocks(|files[i]|)
  {
    SumPick(Counts(files), i);
  }
}
