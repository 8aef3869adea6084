/**
Whole runs of the block layer: any sequence of reads, writes and truncates on any
files behaves as the same sequence on a map of flat byte sequences, and the first
operation that fails, and why, is decided by those flat files alone. A write that
only blocks past the device could hold ends the run too.
*/
module CofsRun {
  import opened Block
  import opened CofsLayout
  import opened Cofs
  import opened CofsCensus

  type Files = map<nat, seq<byte>>

  datatype Op =
    | ReadOp(ino: nat, offset: nat, size: nat)
    | WriteOp(ino: nat, offset: nat, data: seq<byte>)
    | TruncateOp(ino: nat, length: nat)

  // ---- flat files ------------------------------------------------------------------

  function Do(files: Files, op: Op): Files {
    if op.ino !in files then files
    else
      var f := files[op.ino];
      match op
      case ReadOp(_, _, _) => files
      case WriteOp(ino, offset, data) =>
        if Refused(|f|, offset, |data|) then files else files[ino := Splice(f, offset, data)]
      case TruncateOp(ino, length) => if length <= |f| then files[ino := f[..length]] else files
  }

  // What a read gives.
  function Answer(files: Files, op: Op): seq<byte> {
    if op.ReadOp? && op.ino in files && op.offset <= |files[op.ino]| then
      files[op.ino][op.offset..Min(op.offset + op.size, |files[op.ino]|)]
    else []
  }

  function DoAll(files: Files, ops: seq<Op>): Files
    decreases |ops|
  {
    if ops == [] then files else DoAll(Do(files, ops[0]), ops[1..])
  }

  function Answers(files: Files, ops: seq<Op>): (r: seq<seq<byte>>)
    ensures |r| == |ops|
    decreases |ops|
  {
    if ops == [] then [] else [Answer(files, ops[0])] + Answers(Do(files, ops[0]), ops[1..])
  }

  lemma {:induction false} DoAllSnoc(files: Files, ops: seq<Op>, op: Op)
    ensures DoAll(files, ops + [op]) == Do(DoAll(files, ops), op)
    ensures Answers(files, ops + [op]) == Answers(files, ops) + [Answer(DoAll(files, ops), op)]
    decreases |ops|
  {
    if ops != [] {
      assert (ops + [op])[1..] == ops[1..] + [op];
      DoAllSnoc(Do(files, ops[0]), ops[1..], op);
    } else {
      assert ([] + [op])[1..] == [];
    }
  }

  /** What was written is read back, whatever is done to other files in between. */
  lemma {:induction false} ReadBack(files: Files, ops: seq<Op>, ino: nat, offset: nat, data: seq<byte>)
    requires ino in files && !Refused(|files[ino]|, offset, |data|)
    requires forall i :: 0 <= i < |ops| ==> ops[i].ino != ino
    ensures var run := [WriteOp(ino, offset, data)] + ops + [ReadOp(ino, offset, |data|)];
            Answers(files, run)[|run| - 1] == data
  {
    var w := WriteOp(ino, offset, data);
    var g := Do(files, w);
    DoAllSnoc(files, [w] + ops, ReadOp(ino, offset, |data|));
    assert ([w] + ops)[1..] == ops;
    OthersLeave(g, ops, ino);
    assert DoAll(files, [w] + ops) == DoAll(g, ops);
  }

  lemma {:induction false} OthersLeave(files: Files, ops: seq<Op>, ino: nat)
    requires ino in files && forall i :: 0 <= i < |ops| ==> ops[i].ino != ino
    ensures ino in DoAll(files, ops) && DoAll(files, ops)[ino] == files[ino]
    decreases |ops|
  {
    if ops != [] {
      assert ops[0].ino != ino;
      OthersLeave(Do(files, ops[0]), ops[1..], ino);
    }
  }

  // ---- verdicts on flat files ------------------------------------------------------------

  datatype Verdict = Fine | Missing | PastWord | DiskFull | Strays | Asserts | Spoils

  // cofs_truncate's own assertions.
  predicate TruncateAsserts(size: nat, length: nat) {
    length <= size && length % BLOCK_SIZE == 0
  }

  // Whether a disk can hold the files: not if there are fewer bits than blocks to mark, and only by using blocks past
  // the device if there are fewer blocks on it.
  ghost function Fitting(g: Geometry, files: Files): Verdict {
    if Demand(files) > DataBlocks(g) then DiskFull else if Demand(files) > DeviceBlocks(g) then Strays else Fine
  }

  // Whether an operation runs, on a disk of this geometry.
  ghost function Judge(g: Geometry, files: Files, op: Op): Verdict {
    if op.ino !in files then Missing
    else
      var size := |files[op.ino]|;
      match op
      case ReadOp(_, offset, n) => if offset <= size && offset + n >= WORD_LIMIT then PastWord else Fine
      case WriteOp(_, offset, data) =>
        if Refused(size, offset, |data|) then Fine
        else if offset + |data| >= WORD_LIMIT then PastWord
        else Fitting(g, Do(files, op))
      case TruncateOp(_, length) =>
        if !TruncateAsserts(size, length) then Asserts else if RunsPastEnd(size) then Spoils else Fine
  }

  /** A read within 32 bits always runs, and gives the bytes from the offset on, as many as there are and were asked for. */
  lemma ReadLaw(g: Geometry, files: Files, ino: nat, offset: nat, n: nat)
    requires ino in files && offset + n < 0x1_0000_0000
    ensures Judge(g, files, ReadOp(ino, offset, n)) == Fine && Do(files, ReadOp(ino, offset, n)) == files
    ensures var f, a := files[ino], Answer(files, ReadOp(ino, offset, n));
            && |a| == (if offset >= |f| then 0 else if offset + n <= |f| then n else |f| - offset)
            && forall i :: 0 <= i < |a| ==> a[i] == f[offset + i]
  {
  }

  /** A write that starts within the file and ends by byte 8388742 runs exactly when the device has blocks enough for the
      resulting files; byte by byte it leaves the data at its place and everything else as it was. */
  lemma WriteLaw(g: Geometry, files: Files, ino: nat, offset: nat, data: seq<byte>)
    requires ValidGeometry(g) && ino in files && offset <= |files[ino]| && offset + |data| <= 8388742
    ensures var op, f := WriteOp(ino, offset, data), files[ino];
            && (Judge(g, files, op) == Fine <==> Demand(Do(files, op)) <= g.size - g.meta)
            && Do(files, op).Keys == files.Keys && (forall j :: j in files && j != ino ==> Do(files, op)[j] == files[j])
            && |Do(files, op)[ino]| == (if offset + |data| > |f| then offset + |data| else |f|)
            && forall i :: 0 <= i < |Do(files, op)[ino]| ==>
                 Do(files, op)[ino][i] == if offset <= i < offset + |data| then data[i - offset] else f[i]
  {
    hide Demand;
  }

  /** A truncate runs exactly for a length that is a whole number of blocks and no more than the size, of a file that is not
      of six or more whole blocks; it keeps that many bytes. */
  lemma TruncateLaw(g: Geometry, files: Files, ino: nat, length: nat)
    requires ino in files
    ensures var op, size := TruncateOp(ino, length), |files[ino]|;
            && (Judge(g, files, op) == Fine <==>
                  length <= size && length % 512 == 0 && !(size % 512 == 0 && 3072 <= size < 8457216))
            && (length <= size ==> Do(files, op) == files[ino := files[ino][..length]])
  {
  }

  // ---- the disk ----------------------------------------------------------------------------

  datatype Status = Ran | NoFile | Failed(why: Panic) | Strayed | AssertFailed | Spoiled

  predicate Agrees(s: Status, v: Verdict) {
    match v
    case Fine => s == Ran
    case Missing => s == NoFile
    case PastWord => s.Failed?
    case DiskFull => s == Failed(NoSpace)
    case Strays => s == Strayed
    case Asserts => s == AssertFailed
    case Spoils => s == Spoiled
  }

  // A disk whose files have exactly the blocks they need, all of them on the device.
  ghost predicate Mounted(fs: FileSystem)
    reads fs
  {
    fs.Valid() && AllDense(fs.disk, fs.nodes) && OnDevice(fs.g, fs.owner)
  }

  // Does the bitmap mark a block past the device?
  method MarksPast(fs: FileSystem) returns (past: bool)
    requires fs.Valid()
    ensures past <==> !OnDevice(fs.g, fs.owner)
  {
    MarkedOwned(fs.g, fs.disk, fs.nodes, fs.owner);
    hide Inv, Used;
    past := AnyUsed(fs.g, fs.disk, fs.g.size);
  }

  // Is a block from `lo` on marked in the bitmap?
  method AnyUsed(g: Geometry, disk: Disk, lo: nat) returns (any: bool)
    requires ValidGeometry(g) && |disk| == Capacity(g)
    ensures any <==> exists b: nat :: lo <= b < Capacity(g) && Used(g, disk, b)
  {
    hide Used, ValidGeometry, Capacity;
    var c := lo;
    while c < |disk|
      invariant lo <= c
      invariant forall b: nat :: lo <= b < c && b < |disk| ==> !Used(g, disk, b)
    {
      if Used(g, disk, c) {
        return true;
      }
      c := c + 1;
    }
    any := false;
  }

  lemma MarkedOwned(g: Geometry, disk: Disk, nodes: map<nat, Inode>, owner: map<nat, Loc>)
    requires Inv(g, disk, nodes, owner)
    ensures ValidGeometry(g) && |disk| == Capacity(g) && g.meta <= g.size <= Capacity(g)
    ensures forall b: nat :: g.size <= b < Capacity(g) ==> (Used(g, disk, b) <==> b in owner)
    ensures forall b :: b in owner ==> g.meta <= b < Capacity(g)
  {
    hide Ptr, Used, PointersOwn;
  }

  // Every file but ino reads and is laid out as before.
  lemma StepView(d0: Disk, n0: map<nat, Inode>, d1: Disk, n1: map<nat, Inode>, ino: nat)
    requires n1.Keys == n0.Keys && ino in n0 && OthersKept(d0, n0, d1, n1, ino) && AllDense(d0, n0)
    requires forall i :: i in n1 && i != ino ==> SameFile(d0, n0[i], d1, n1[i])
    ensures forall i :: i in n1 && i != ino ==> n1[i].size == n0[i].size && Dense(d1, n1[i], Blocks(n1[i].size))
    ensures View(d1, n1) == View(d0, n0)[ino := Content(d1, n1[ino])]
    ensures Dense(d1, n1[ino], Blocks(n1[ino].size)) ==> AllDense(d1, n1)
  {
    hide Ptr, Dense, ByteAt;
    forall i | i in n1 && i != ino
      ensures Content(d1, n1[i]) == Content(d0, n0[i])
      ensures n1[i].size == n0[i].size && Dense(d1, n1[i], Blocks(n1[i].size))
    {
      assert SameFile(d0, n0[i], d1, n1[i]) && SamePtrs(d0, n0[i], d1, n1[i]);
      DenseKept(d0, n0[i], d1, n1[i], Blocks(n0[i].size));
    }
  }

  predicate FitsWord(op: Op) {
    match op
    case ReadOp(_, offset, size) => offset < WORD_LIMIT && size < WORD_LIMIT
    case WriteOp(_, offset, data) => offset < WORD_LIMIT && |data| < WORD_LIMIT
    case TruncateOp(_, length) => true
  }

  /** A read that does not wrap leaves the disk as it is and gives the bytes of the flat file; one that wraps fails. */
  method DoRead(fs: FileSystem, ino: nat, offset: nat, size: nat) returns (s: Status, data: seq<byte>)
    requires Mounted(fs) && ino in fs.nodes && offset < WORD_LIMIT && size < WORD_LIMIT
    modifies fs
    ensures s.Ran? || s.Failed?
    ensures s.Ran? <==> !(offset <= old(fs.nodes[ino].size) && offset + size >= WORD_LIMIT)
    ensures s.Ran? ==>
              && fs.Unchanged(old(fs.disk), old(fs.nodes), old(fs.owner))
              && data == Answer(View(old(fs.disk), old(fs.nodes)), ReadOp(ino, offset, size))
  {
    hide Ptr, Dense, ByteAt, Inv, OthersKept, SameFile, Full;
    var r;
    r, data := fs.Read(ino, offset, size);
    if r.Panicked? {
      return Failed(r.why), [];
    }
    s := Ran;
  }

  /** A write runs exactly when it is refused, or does not wrap and the device can hold the files it makes. */
  method DoWrite(fs: FileSystem, ino: nat, offset: nat, data: seq<byte>) returns (s: Status)
    requires Mounted(fs) && ino in fs.nodes && offset < WORD_LIMIT && |data| < WORD_LIMIT
    modifies fs
    ensures Agrees(s, Judge(fs.g, View(old(fs.disk), old(fs.nodes)), WriteOp(ino, offset, data)))
    ensures s == Failed(NoSpace) ==> Full(fs.g, fs.disk)
    ensures s.Strayed? ==> fs.Valid() && !OnDevice(fs.g, fs.owner)
    ensures s.Ran? ==>
              && Mounted(fs)
              && View(fs.disk, fs.nodes) == Do(View(old(fs.disk), old(fs.nodes)), WriteOp(ino, offset, data))
  {
    hide Ptr, Dense, ByteAt, Inv, OthersKept, SameFile, Splice, Short, Full, Content, Demand, Overlaid, TakenLow, OnDevice;
    ghost var files, op := View(fs.disk, fs.nodes), WriteOp(ino, offset, data);
    var r := fs.Write(ino, offset, data);
    StepView(old(fs.disk), old(fs.nodes), fs.disk, fs.nodes, ino);
    SpliceLength(files[ino], offset, data);
    if r.Panicked? {
      if offset + |data| < WORD_LIMIT {
        ShortDemand(fs.g, fs.disk, fs.nodes, fs.owner, ino, Do(files, op), Blocks(offset + |data|));
      }
      return Failed(r.why);
    }
    if Refused(old(fs.nodes[ino].size), offset, |data|) {
      SameContent(old(fs.disk), old(fs.nodes), fs.disk, fs.nodes, ino);
    }
    assert View(fs.disk, fs.nodes) == Do(files, op);
    Census(fs.g, fs.disk, fs.nodes, fs.owner);
    DeviceIff(fs.g, fs.disk, fs.nodes, old(fs.owner), fs.owner);
    if Refused(old(fs.nodes[ino].size), offset, |data|) {
      DeviceBound(fs.g, old(fs.disk), old(fs.nodes), old(fs.owner));
      Census(fs.g, old(fs.disk), old(fs.nodes), old(fs.owner));
      assert Do(files, op) == files;
    }
    hide OnDevice, TakenLow, AllDense;
    var past := MarksPast(fs);
    s := if past then Strayed else Ran;
  }

  lemma SpliceLength(f: seq<byte>, offset: nat, data: seq<byte>)
    ensures offset <= |f| ==> |Splice(f, offset, data)| == if offset + |data| > |f| then offset + |data| else |f|
  {
  }

  /** A truncate runs exactly when its assertions hold and the size is not one of those at which it spoils the disk. */
  method DoTruncate(fs: FileSystem, ino: nat, length: nat) returns (s: Status)
    requires Mounted(fs) && ino in fs.nodes
    modifies fs
    ensures Agrees(s, Judge(fs.g, View(old(fs.disk), old(fs.nodes)), TruncateOp(ino, length)))
    ensures s.Ran? ==>
              && Mounted(fs)
              && View(fs.disk, fs.nodes) == Do(View(old(fs.disk), old(fs.nodes)), TruncateOp(ino, length))
  {
    hide Ptr, Dense, ByteAt, Inv, OthersKept, SameFile, Content;
    if !TruncateAsserts(fs.nodes[ino].size, length) {
      return AssertFailed;
    }
    var spoils := RunsPastEnd(fs.nodes[ino].size);
    var r := fs.Truncate(ino, length);
    if spoils {
      return Spoiled;
    }
    StepView(old(fs.disk), old(fs.nodes), fs.disk, fs.nodes, ino);
    s := Ran;
  }

  method Step(fs: FileSystem, op: Op) returns (s: Status, data: seq<byte>)
    requires Mounted(fs) && FitsWord(op)
    modifies fs
    ensures Agrees(s, Judge(fs.g, View(old(fs.disk), old(fs.nodes)), op))
    ensures s.Ran? ==>
              && Mounted(fs)
              && View(fs.disk, fs.nodes) == Do(View(old(fs.disk), old(fs.nodes)), op)
              && data == Answer(View(old(fs.disk), old(fs.nodes)), op)
  {
    hide Ptr, Dense, ByteAt, Inv, OthersKept, SameFile, Splice, AllDense, Demand, Full;
    data := [];
    if op.ino !in fs.nodes {
      return NoFile, [];
    }
    match op
    case ReadOp(ino, offset, size) => s, data := DoRead(fs, ino, offset, size);
    case WriteOp(ino, offset, bytes) => s := DoWrite(fs, ino, offset, bytes);
    case TruncateOp(ino, length) => s := DoTruncate(fs, ino, length);
  }

  /** Refinement over every run: the disk represents the flat files that the operations so far produce, every read gives
      what the flat files give, and the ownership invariant holds. The run ends with the first operation that the flat
      files forbid, and with the status they call for. */
  method Run(fs: FileSystem, ops: seq<Op>) returns (s: Status, answers: seq<seq<byte>>)
    requires Mounted(fs) && forall i :: 0 <= i < |ops| ==> FitsWord(ops[i])
    modifies fs
    ensures |answers| <= |ops| && answers == Answers(View(old(fs.disk), old(fs.nodes)), ops[..|answers|])
    ensures forall k :: 0 <= k < |answers| ==>
              Judge(fs.g, DoAll(View(old(fs.disk), old(fs.nodes)), ops[..k]), ops[k]) == Fine
    ensures s.Ran? <==> |answers| == |ops|
    ensures !s.Ran? ==>
              Agrees(s, Judge(fs.g, DoAll(View(old(fs.disk), old(fs.nodes)), ops[..|answers|]), ops[|answers|]))
    ensures s.Ran? ==> Mounted(fs) && View(fs.disk, fs.nodes) == DoAll(View(old(fs.disk), old(fs.nodes)), ops)
  {
    hide Ptr, Dense, ByteAt, Inv, Splice, Mounted, View, Do, Answer, Judge;
    ghost var files := View(fs.disk, fs.nodes);
    answers := [];
    assert ops[..0] == [];
    while |answers| < |ops|
      invariant |answers| <= |ops| && Mounted(fs)
      invariant answers == Answers(files, ops[..|answers|])
      invariant View(fs.disk, fs.nodes) == DoAll(files, ops[..|answers|])
      invariant forall k :: 0 <= k < |answers| ==> Judge(fs.g, DoAll(files, ops[..k]), ops[k]) == Fine
    {
      var k := |answers|;
      var op := ops[k];
      DoAllSnoc(files, ops[..k], op);
      assert ops[..k + 1] == ops[..k] + [op];
      var data;
      s, data := Step(fs, op);
      if !s.Ran? {
        return;
      }
      answers := answers + [data];
    }
    assert ops[..|answers|] == ops;
    s := Ran;
  }

  /** A concrete run that goes wrong: six full blocks written to an empty file, then truncated. */
  method SixFullBlocks(fs: FileSystem, ino: nat, data: seq<byte>, length: nat) returns (s: Status, r: Result<nat>)
    requires Mounted(fs) && ino in fs.nodes && fs.nodes[ino].size == 0
    requires |data| == 6 * BLOCK_SIZE && length % BLOCK_SIZE == 0 && length <= |data|
    modifies fs
    ensures s.Ran? <==> Demand(View(old(fs.disk), old(fs.nodes))[ino := data]) <= DeviceBlocks(fs.g)
    ensures s.Ran? ==> r.Panicked? || !fs.Valid()
  {
    hide Ptr, Dense, ByteAt, Inv, OthersKept, SameFile, Demand, Content, Full;
    assert View(fs.disk, fs.nodes)[ino] == [];
    assert Splice([], 0, data) == data;
    r := Ok(0);
    s := DoWrite(fs, ino, 0, data);
    if s.Ran? {
      assert fs.nodes[ino].size == |View(fs.disk, fs.nodes)[ino]| == 6 * BLOCK_SIZE;
      r := fs.Truncate(ino, length);
    }
  }
}
