/**
The disk buffer queue: at most MAX_HD_BUFS buffers, one per disk block, handed
out locked by get_hd_buf and written back, if dirty, by put_hd_buf. Through it a
disk looks like a plain array of blocks.

Each call is one step; a block that is already held is never asked for again
(the second caller would spin on the buffer's lock).
*/
module HdQueue {
  import opened Block

  const MAX_HD_BUFS := 200

  // A buffer stays in the queue for good, so its place there stands for the pointer a client holds.
  datatype HdBuf = HdBuf(blockNo: nat, isDirty: bool, refCount: int, lock: bool, buf: Block)

  /** What clients see: block contents as last put, and the private copies of the blocks being held. */
  datatype View = View(disk: seq<Block>, held: map<nat, Block>)

  datatype Op = Get(b: nat) | Modify(b: nat, v: Block) | Put(b: nat)

  // Whether a client may issue op: no block is asked for twice, and fewer than MAX_HD_BUFS are held.
  predicate Enabled(v: View, op: Op) {
    match op
    case Get(b) => b < |v.disk| && b !in v.held && |v.held| < MAX_HD_BUFS
    case Modify(b, _) => b in v.held
    case Put(b) => b in v.held && b < |v.disk|
  }

  function Apply(v: View, op: Op): View
    requires Enabled(v, op)
  {
    match op
    case Get(b) => v.(held := v.held[b := v.disk[b]])
    case Modify(b, x) => v.(held := v.held[b := x])
    case Put(b) => View(v.disk[b := v.held[b]], v.held - {b})
  }

  predicate Does(v: View, op: Op, v': View) {
    Enabled(v, op) && v' == Apply(v, op)
  }

  predicate Runnable(v: View, ops: seq<Op>)
    decreases |ops|
  {
    ops == [] || (Enabled(v, ops[0]) && Runnable(Apply(v, ops[0]), ops[1..]))
  }

  function Outcome(v: View, ops: seq<Op>): View
    requires Runnable(v, ops)
    decreases |ops|
  {
    if ops == [] then v else Outcome(Apply(v, ops[0]), ops[1..])
  }

  // A free buffer is clean, a clean one equals the disk, and a used one has one holder, who also has its lock.
  predicate Sound(h: HdBuf, disk: seq<Block>) {
    && h.blockNo < |disk|
    && 0 <= h.refCount <= 1
    && (h.lock <==> h.refCount == 1)
    && (h.refCount == 0 ==> !h.isDirty)
    && (!h.isDirty ==> h.buf == disk[h.blockNo])
  }

  ghost predicate Coherent(bufs: seq<HdBuf>, disk: seq<Block>) {
    && |bufs| <= MAX_HD_BUFS && Distinct(bufs)
    && (forall i :: 0 <= i < |bufs| ==> Sound(bufs[i], disk))
  }

  // The blocks in use and what their holders see.
  ghost function Held(bufs: seq<HdBuf>): map<nat, Block> {
    if bufs == [] then map[]
    else
      var h := bufs[|bufs| - 1];
      if h.refCount > 0 then Held(bufs[..|bufs| - 1])[h.blockNo := h.buf] else Held(bufs[..|bufs| - 1])
  }

  ghost predicate Distinct(bufs: seq<HdBuf>) {
    forall i, j :: 0 <= i < j < |bufs| ==> bufs[i].blockNo != bufs[j].blockNo
  }

  lemma {:induction false} HeldIff(bufs: seq<HdBuf>, b: nat)
    requires Distinct(bufs)
    ensures b in Held(bufs) <==> exists i :: 0 <= i < |bufs| && bufs[i].blockNo == b && bufs[i].refCount > 0
    ensures forall i :: 0 <= i < |bufs| && bufs[i].blockNo == b && bufs[i].refCount > 0 ==> Held(bufs)[b] == bufs[i].buf
  {
    if bufs != [] {
      var p := bufs[..|bufs| - 1];
      HeldIff(p, b);
      if b in Held(p) {
        var i :| 0 <= i < |p| && p[i].blockNo == b && p[i].refCount > 0;
        assert bufs[i] == p[i];
      }
      forall i | 0 <= i < |bufs| - 1 ensures bufs[i] == p[i] {
      }
    }
  }

  /** The number of blocks held tells whether every buffer is in use. */
  lemma {:induction false} HeldCount(bufs: seq<HdBuf>)
    requires Distinct(bufs)
    ensures |Held(bufs)| <= |bufs|
    ensures |Held(bufs)| == |bufs| <==> forall i :: 0 <= i < |bufs| ==> bufs[i].refCount > 0
  {
    if bufs != [] {
      var p := bufs[..|bufs| - 1];
      HeldCount(p);
      HeldIff(p, bufs[|bufs| - 1].blockNo);
      forall i | 0 <= i < |bufs| - 1 ensures bufs[i] == p[i] {
      }
    }
  }

  // Two queues that hold the same blocks with the same contents give clients the same view.
  lemma HeldEq(bufs: seq<HdBuf>, m: map<nat, Block>)
    requires Distinct(bufs)
    requires forall i :: 0 <= i < |bufs| && bufs[i].refCount > 0 ==>
                           bufs[i].blockNo in m && m[bufs[i].blockNo] == bufs[i].buf
    requires forall b :: b in m ==> exists i :: 0 <= i < |bufs| && bufs[i].blockNo == b && bufs[i].refCount > 0
    ensures Held(bufs) == m
  {
    hide Held;
    forall b: nat ensures b in Held(bufs) <==> b in m
    {
      HeldIff(bufs, b);
    }
    forall b | b in m ensures Held(bufs)[b] == m[b] {
      HeldIff(bufs, b);
      var i :| 0 <= i < |bufs| && bufs[i].blockNo == b && bufs[i].refCount > 0;
      assert Held(bufs)[b] == bufs[i].buf;
    }
  }

  /** Writing one buffer of the queue changes the held blocks at that buffer's block only. */
  lemma HeldUpdate(bufs: seq<HdBuf>, k: nat, h: HdBuf)
    requires Distinct(bufs) && k < |bufs| && Distinct(bufs[k := h])
    requires bufs[k].refCount == 0 || h.blockNo == bufs[k].blockNo
    ensures Held(bufs[k := h]) ==
            if h.refCount > 0 then Held(bufs)[h.blockNo := h.buf] else Held(bufs) - {h.blockNo}
  {
    hide Held;
    var bufs' := bufs[k := h];
    var m := if h.refCount > 0 then Held(bufs)[h.blockNo := h.buf] else Held(bufs) - {h.blockNo};
    forall i | 0 <= i < |bufs'| && bufs'[i].refCount > 0
      ensures bufs'[i].blockNo in m && m[bufs'[i].blockNo] == bufs'[i].buf
    {
      HeldIff(bufs, bufs'[i].blockNo);
      if i != k {
        assert bufs[i] == bufs'[i];
        assert bufs'[i].blockNo != bufs'[k].blockNo;
      }
    }
    forall b | b in m ensures exists i :: 0 <= i < |bufs'| && bufs'[i].blockNo == b && bufs'[i].refCount > 0 {
      if h.refCount > 0 && b == h.blockNo {
        assert bufs'[k].blockNo == b;
      } else {
        HeldIff(bufs, b);
        var i :| 0 <= i < |bufs| && bufs[i].blockNo == b && bufs[i].refCount > 0;
        assert bufs'[i] == bufs[i];
      }
    }
    HeldEq(bufs', m);
  }

  class Queue {
    var bufs: seq<HdBuf>
    var disk: seq<Block>

    ghost predicate Valid()
      reads this
    {
      Coherent(bufs, disk)
    }

    ghost function TheView(): View
      reads this
    {
      View(disk, Held(bufs))
    }

    constructor (disk: seq<Block>)
      ensures Valid() && TheView() == View(disk, map[])
    {
      this.disk := disk;
      bufs := [];
    }

    // hd_rw: writes a dirty buffer to its block, reads a clean one from it.
    method HdRw(k: nat)
      requires k < |bufs| && bufs[k].lock && bufs[k].blockNo < |disk|
      modifies this
      ensures old(bufs)[k].isDirty ==>
                bufs == old(bufs) && disk == old(disk)[old(bufs)[k].blockNo := old(bufs)[k].buf]
      ensures !old(bufs)[k].isDirty ==>
                disk == old(disk) && bufs == old(bufs)[k := old(bufs)[k].(buf := disk[old(bufs)[k].blockNo])]
    {
      if bufs[k].isDirty {
        disk := disk[bufs[k].blockNo := bufs[k].buf];
      } else {
        bufs := bufs[k := bufs[k].(buf := disk[bufs[k].blockNo])];
      }
    }

    method Find(block: nat) returns (k: nat)
      ensures k <= |bufs|
      ensures k < |bufs| ==> bufs[k].blockNo == block
      ensures k == |bufs| ==> forall i :: 0 <= i < |bufs| ==> bufs[i].blockNo != block
    {
      k := 0;
      while k < |bufs|
        invariant 0 <= k <= |bufs|
        invariant forall i :: 0 <= i < k ==> bufs[i].blockNo != block
      {
        if bufs[k].blockNo == block {
          return;
        }
        k := k + 1;
      }
    }

    // The search for a reusable buffer. It leaves the last buffer in hand when none is free,
    // so the test for exhaustion that follows it in the source never fires.
    method FindFree() returns (k: nat)
      requires |bufs| > 0
      ensures k < |bufs|
      ensures Reusable(bufs[k]) || (k == |bufs| - 1 && forall i :: 0 <= i < |bufs| ==> !Reusable(bufs[i]))
    {
      k := 0;
      while k < |bufs|
        invariant 0 <= k <= |bufs|
        invariant forall i :: 0 <= i < k ==> !Reusable(bufs[i])
      {
        if Reusable(bufs[k]) {
          return;
        }
        k := k + 1;
      }
      k := |bufs| - 1;
    }

    /** Hands out the buffer of a block, holding what was last put for it. With all MAX_HD_BUFS buffers held it takes
        the last one away from its holder instead, whatever had been written into it. */
    method GetHdBuf(block: nat) returns (k: nat)
      requires Valid() && block < |disk| && block !in Held(bufs)
      modifies this
      ensures disk == old(disk) && k < |bufs|
      ensures bufs[k].blockNo == block && bufs[k].refCount == 1 && bufs[k].lock && bufs[k].buf == disk[block]
      ensures |old(Held(bufs))| < MAX_HD_BUFS ==> Valid() && Does(old(TheView()), Get(block), TheView())
      ensures |old(Held(bufs))| == MAX_HD_BUFS ==>
                k == MAX_HD_BUFS - 1 < |old(bufs)| && old(bufs)[k].refCount == 1 && old(bufs)[k].blockNo != block
      ensures |old(Held(bufs))| <= MAX_HD_BUFS
    {
      hide Held;
      k := Find(block);
      HeldCount(bufs);
      HeldIff(bufs, block);
      if k < |bufs| {
        bufs := bufs[k := bufs[k].(refCount := bufs[k].refCount + 1)];
        bufs := bufs[k := bufs[k].(lock := true)];
        assert bufs == old(bufs)[k := HdBuf(block, false, 1, true, disk[block])];
        Handed(old(bufs), disk, k, block);
      } else if |bufs| < MAX_HD_BUFS {
        bufs := bufs + [HdBuf(0, false, 0, false, ZeroBlock())];
        Load(k, block);
        ghost var was := old(bufs) + [HdBuf(block, false, 0, false, disk[block])];
        HeldAppend(old(bufs), HdBuf(block, false, 0, false, disk[block]));
        assert bufs == was[k := HdBuf(block, false, 1, true, disk[block])];
        Handed(was, disk, k, block);
      } else {
        k := FindFree();
        Load(k, block);
        if |old(Held(bufs))| < MAX_HD_BUFS {
          Handed(old(bufs), disk, k, block);
        }
      }
    }

    // A buffer is given to a block and filled from the disk.
    method Load(k: nat, block: nat)
      requires k < |bufs| && block < |disk|
      modifies this
      ensures disk == old(disk) && bufs == old(bufs)[k := HdBuf(block, false, 1, true, disk[block])]
    {
      bufs := bufs[k := bufs[k].(lock := false)];
      bufs := bufs[k := bufs[k].(blockNo := block)];
      bufs := bufs[k := bufs[k].(isDirty := false)];
      bufs := bufs[k := bufs[k].(refCount := 1)];
      bufs := bufs[k := bufs[k].(lock := true)];
      HdRw(k);
    }

    // The holder of buffer k writes into it and marks it dirty.
    method Write(k: nat, v: Block)
      requires Valid() && k < |bufs| && bufs[k].refCount == 1
      modifies this`bufs
      ensures Valid() && Does(old(TheView()), Modify(old(bufs)[k].blockNo, v), TheView())
      ensures |bufs| == |old(bufs)| && bufs[k].blockNo == old(bufs)[k].blockNo
    {
      HeldIff(bufs, bufs[k].blockNo);
      HeldUpdate(bufs, k, bufs[k].(buf := v, isDirty := true));
      bufs := bufs[k := bufs[k].(buf := v, isDirty := true)];
    }

    /** Gives a buffer back: from now on its contents are those of the block. */
    method PutHdBuf(k: nat)
      requires Valid() && k < |bufs| && bufs[k].refCount == 1
      modifies this
      ensures Valid() && Does(old(TheView()), Put(old(bufs)[k].blockNo), TheView())
      ensures |bufs| == |old(bufs)| && bufs[k].blockNo == old(bufs)[k].blockNo
    {
      hide Held;
      ghost var h0 := bufs[k];
      HeldIff(bufs, h0.blockNo);
      HeldUpdate(bufs, k, HdBuf(h0.blockNo, false, 0, false, h0.buf));
      bufs := bufs[k := bufs[k].(refCount := bufs[k].refCount - 1)];
      if bufs[k].isDirty && bufs[k].refCount == 0 {
        HdRw(k);
        bufs := bufs[k := bufs[k].(isDirty := false)];
      }
      bufs := bufs[k := bufs[k].(lock := false)];
      assert bufs == old(bufs)[k := HdBuf(h0.blockNo, false, 0, false, h0.buf)];
    }

    method FindHeld(b: nat) returns (k: nat)
      requires Valid() && b in TheView().held
      ensures k < |bufs| && bufs[k].blockNo == b && bufs[k].refCount == 1
    {
      HeldIff(bufs, b);
      k := Find(b);
    }

    /** Any run of gets, modifications and puts, however nested, leaves clients with what the run means on a plain
        array of blocks: every get sees what was last put, and no put is lost by the reuse of buffers. */
    method Run(ops: seq<Op>)
      requires Valid() && Runnable(TheView(), ops)
      modifies this
      ensures Valid() && TheView() == Outcome(old(TheView()), ops)
    {
      hide Held, Coherent;
      var n := 0;
      while n < |ops|
        invariant 0 <= n <= |ops| && Valid()
        invariant Runnable(TheView(), ops[n..])
        invariant Outcome(TheView(), ops[n..]) == Outcome(old(TheView()), ops)
      {
        assert ops[n..][0] == ops[n] && ops[n..][1..] == ops[n + 1..];
        match ops[n] {
          case Get(b) =>
            var k := GetHdBuf(b);
          case Modify(b, v) =>
            var k := FindHeld(b);
            Write(k, v);
          case Put(b) =>
            var k := FindHeld(b);
            PutHdBuf(k);
        }
        n := n + 1;
      }
    }
  }

  // ---- what a plain array promises ------------------------------------------------------

  lemma {:induction false} RunSplit(v: View, a: seq<Op>, b: seq<Op>)
    requires Runnable(v, a + b)
    ensures Runnable(v, a) && Runnable(Outcome(v, a), b) && Outcome(v, a + b) == Outcome(Outcome(v, a), b)
    decreases |a|
  {
    hide Enabled, Apply;
    if a == [] {
      assert a + b == b;
    } else {
      assert (a + b)[0] == a[0] && (a + b)[1..] == a[1..] + b;
      RunSplit(Apply(v, a[0]), a[1..], b);
    }
  }

  /** Operations on other blocks leave a block, and a buffer that holds it, as they are. */
  lemma {:induction false} OthersStay(v: View, ops: seq<Op>, b: nat)
    requires Runnable(v, ops) && forall i :: 0 <= i < |ops| ==> ops[i].b != b
    ensures |Outcome(v, ops).disk| == |v.disk| && (b < |v.disk| ==> Outcome(v, ops).disk[b] == v.disk[b])
    ensures b in Outcome(v, ops).held <==> b in v.held
    ensures b in v.held ==> Outcome(v, ops).held[b] == v.held[b]
    decreases |ops|
  {
    if ops != [] {
      OthersStay(Apply(v, ops[0]), ops[1..], b);
    }
  }

  /** Only puts write: a modification that has not been put changes no block. */
  lemma {:induction false} OnlyPutsWrite(v: View, ops: seq<Op>, b: nat)
    requires Runnable(v, ops) && b < |v.disk| && forall i :: 0 <= i < |ops| ==> ops[i] != Put(b)
    ensures |Outcome(v, ops).disk| == |v.disk| && Outcome(v, ops).disk[b] == v.disk[b]
    decreases |ops|
  {
    if ops != [] {
      OnlyPutsWrite(Apply(v, ops[0]), ops[1..], b);
    }
  }

  /** No write is lost: once block b has been modified to x and put, it holds x for as long as nobody touches it, and
      the next get of it sees x. */
  lemma WrittenStays(v: View, pre: seq<Op>, b: nat, x: Block, mid: seq<Op>, post: seq<Op>)
    requires Runnable(v, pre + ([Modify(b, x)] + (mid + ([Put(b)] + post))))
    requires forall i :: 0 <= i < |mid| ==> mid[i].b != b
    requires forall i :: 0 <= i < |post| ==> post[i].b != b
    ensures var w := Outcome(v, pre + ([Modify(b, x)] + (mid + ([Put(b)] + post))));
            && b < |w.disk| && w.disk[b] == x
            && (Enabled(w, Get(b)) ==> b in Apply(w, Get(b)).held && Apply(w, Get(b)).held[b] == x)
  {
    var rest := mid + ([Put(b)] + post);
    RunSplit(v, pre, [Modify(b, x)] + rest);
    var v1 := Outcome(v, pre);
    OneThen(v1, Modify(b, x), rest);
    var v2 := Apply(v1, Modify(b, x));
    RunSplit(v2, mid, [Put(b)] + post);
    OthersStay(v2, mid, b);
    var v3 := Outcome(v2, mid);
    OneThen(v3, Put(b), post);
    OthersStay(Apply(v3, Put(b)), post, b);
  }

  /** A get sees the block as it stands, and what it sees changes only when that buffer is modified. */
  lemma GetSees(v: View, b: nat, ops: seq<Op>)
    requires Runnable(v, [Get(b)] + ops) && forall i :: 0 <= i < |ops| ==> ops[i].b != b
    ensures b < |v.disk| && b in Outcome(v, [Get(b)] + ops).held && Outcome(v, [Get(b)] + ops).held[b] == v.disk[b]
  {
    OneThen(v, Get(b), ops);
    OthersStay(Apply(v, Get(b)), ops, b);
  }

  /** A block that is got and put with no modification in between keeps its contents. */
  lemma GetThenPut(v: View, b: nat, ops: seq<Op>)
    requires Runnable(v, [Get(b)] + (ops + [Put(b)])) && forall i :: 0 <= i < |ops| ==> ops[i].b != b
    ensures var w := Outcome(v, [Get(b)] + (ops + [Put(b)])); b < |w.disk| == |v.disk| && w.disk[b] == v.disk[b]
  {
    OneThen(v, Get(b), ops + [Put(b)]);
    var v1 := Apply(v, Get(b));
    RunSplit(v1, ops, [Put(b)]);
    OthersStay(v1, ops, b);
    OneThen(Outcome(v1, ops), Put(b), []);
    assert [Put(b)] + [] == [Put(b)];
  }

  /** Any block that is not held may be got while fewer than 200 are. */
  lemma RoomForMore(v: View, b: nat)
    requires b < |v.disk| && b !in v.held
    ensures Enabled(v, Get(b)) <==> |v.held| < 200
  {
  }

  lemma OneThen(v: View, op: Op, ops: seq<Op>)
    requires Runnable(v, [op] + ops)
    ensures Enabled(v, op) && Runnable(Apply(v, op), ops) && Outcome(v, [op] + ops) == Outcome(Apply(v, op), ops)
  {
    assert ([op] + ops)[1..] == ops;
  }

  predicate Reusable(h: HdBuf) {
    h.refCount == 0 && !h.isDirty && !h.lock
  }

  // A free buffer may be handed out for a block no other buffer has.
  lemma Handed(bufs: seq<HdBuf>, disk: seq<Block>, k: nat, block: nat)
    requires Coherent(bufs, disk) && k < |bufs| && bufs[k].refCount == 0 && block < |disk|
    requires forall i :: 0 <= i < |bufs| && i != k ==> bufs[i].blockNo != block
    ensures Coherent(bufs[k := HdBuf(block, false, 1, true, disk[block])], disk)
    ensures Held(bufs[k := HdBuf(block, false, 1, true, disk[block])]) == Held(bufs)[block := disk[block]]
  {
    hide Held;
    HeldUpdate(bufs, k, HdBuf(block, false, 1, true, disk[block]));
  }

  lemma HeldAppend(bufs: seq<HdBuf>, h: HdBuf)
    requires h.refCount == 0
    ensures Held(bufs + [h]) == Held(bufs)
  {
    assert (bufs + [h])[..|bufs|] == bufs;
  }
}
