/**
Pipes: a ring of 1024 bytes with two 32-bit counters that only go up and wrap.
Each call is a number of sections run with the pipe locked; between two sections
the caller sleeps and any other section may run.
*/
module Pipe {
  import opened Block

  const PIPE_BUFFER_SIZE := 1024
  const WRAP := 0x1_0000_0000

  datatype Side = ReadSide | WriteSide

  // What has gone through the pipe, and who has it open.
  datatype Fifo = Fifo(sent: seq<byte>, received: seq<byte>, readers: nat, writers: nat, freed: bool)

  ghost predicate Sound(f: Fifo) {
    f.received <= f.sent && |f.sent| <= |f.received| + PIPE_BUFFER_SIZE && f.readers < WRAP && f.writers < WRAP
  }

  datatype ReadResult = ReadBlocked | Got(bytes: seq<byte>)
  datatype WriteResult = WriteBlocked | Wrote | NoReaders

  // One locked section of pipe_read.
  function ReadSection(f: Fifo, size: nat): (p: (Fifo, ReadResult))
    requires |f.received| <= |f.sent|
  {
    if f.sent[|f.received|..] == [] && f.writers > 0 then (f, ReadBlocked)
    else
      var bytes := f.sent[|f.received|..][..Min(size, |f.sent| - |f.received|)];
      (f.(received := f.received + bytes), Got(bytes))
  }

  // How many of n bytes fit.
  function Fits(f: Fifo, n: nat): (k: nat)
    requires |f.received| <= |f.sent| <= |f.received| + PIPE_BUFFER_SIZE
  {
    Min(n, |f.received| + PIPE_BUFFER_SIZE - |f.sent|)
  }

  // One locked section of pipe_write, with data still to go.
  function WriteSection(f: Fifo, data: seq<byte>): (p: (Fifo, WriteResult))
    requires |f.received| <= |f.sent| <= |f.received| + PIPE_BUFFER_SIZE
  {
    var n := Fits(f, |data|);
    (f.(sent := f.sent + data[..n]), if n == |data| then Wrote else if f.readers == 0 then NoReaders else WriteBlocked)
  }

  function Opened(f: Fifo, side: Side): Fifo {
    match side
    case ReadSide => f.(readers := (f.readers + 1) % WRAP)
    case WriteSide => f.(writers := (f.writers + 1) % WRAP)
  }

  function Closed(f: Fifo, side: Side): Fifo {
    var g := match side
             case ReadSide => f.(readers := (f.readers + WRAP - 1) % WRAP)
             case WriteSide => f.(writers := (f.writers + WRAP - 1) % WRAP);
    g.(freed := g.readers == 0 && g.writers == 0)
  }

  // ---- counters that wrap ------------------------------------------------------------

  // 1024 divides 2^32, so the place in the ring survives the wrap.
  lemma SlotAcrossWrap(n: nat)
    ensures n % WRAP % PIPE_BUFFER_SIZE == n % PIPE_BUFFER_SIZE
  {
    var q := n / WRAP;
    assert n == WRAP * q + n % WRAP;
  }

  lemma NextCount(n: nat)
    ensures (n % WRAP + 1) % WRAP == (n + 1) % WRAP
  {
  }

  lemma PrefixNext(a: seq<byte>, s: seq<byte>)
    requires a <= s && |a| < |s|
    ensures a + [s[|a|]] <= s
  {
  }

  // The counters agree exactly when nothing is pending, and differ by the ring's size exactly when it is full.
  lemma CountersTell(sent: nat, received: nat)
    requires received <= sent <= received + PIPE_BUFFER_SIZE
    ensures received % WRAP == sent % WRAP <==> sent == received
    ensures sent % WRAP == (received % WRAP + PIPE_BUFFER_SIZE) % WRAP <==> sent == received + PIPE_BUFFER_SIZE
  {
  }

  // Two bytes pending together sit at different places.
  lemma SlotsApart(i: nat, j: nat)
    requires i < j < i + PIPE_BUFFER_SIZE
    ensures i % PIPE_BUFFER_SIZE != j % PIPE_BUFFER_SIZE
  {
  }

  // The ring holds the bytes from place r on.
  ghost predicate Holds(ring: seq<byte>, sent: seq<byte>, r: nat)
    requires |ring| == PIPE_BUFFER_SIZE
  {
    forall i :: r <= i < |sent| ==> ring[i % PIPE_BUFFER_SIZE] == sent[i]
  }

  lemma TakeHolds(ring: seq<byte>, sent: seq<byte>, r: nat)
    requires |ring| == PIPE_BUFFER_SIZE && Holds(ring, sent, r) && r < |sent|
    ensures ring[r % PIPE_BUFFER_SIZE] == sent[r] && Holds(ring, sent, r + 1)
  {
  }

  lemma PutHolds(ring: seq<byte>, sent: seq<byte>, r: nat, b: byte)
    requires |ring| == PIPE_BUFFER_SIZE && Holds(ring, sent, r) && r <= |sent| < r + PIPE_BUFFER_SIZE
    ensures Holds(ring[|sent| % PIPE_BUFFER_SIZE := b], sent + [b], r)
  {
    forall i | r <= i < |sent|
      ensures i % PIPE_BUFFER_SIZE != |sent| % PIPE_BUFFER_SIZE
    {
      SlotsApart(i, |sent|);
    }
  }

  // ---- one section ------------------------------------------------------------------------

  /** A read that asks for something sleeps exactly when the pipe is drained and has writers, gives nothing exactly when
      it is drained and has none, and otherwise gives the oldest pending bytes, as many as it asked for or there are. */
  lemma ReadOutcome(f: Fifo, size: nat)
    requires Sound(f) && size > 0
    ensures var (g, r) := ReadSection(f, size);
            && Sound(g)
            && (r == ReadBlocked <==> f.received == f.sent && f.writers > 0)
            && (r == Got([]) <==> f.received == f.sent && f.writers == 0)
            && (r.Got? ==> g.received == f.received + r.bytes && g.received <= g.sent == f.sent)
            && (r.Got? ==> |r.bytes| == if |f.sent| - |f.received| < size then |f.sent| - |f.received| else size)
  {
    assert f.received == f.sent[..|f.received|];
    var (g, r) := ReadSection(f, size);
    if r.Got? {
      assert g.received == f.sent[..|f.received| + |r.bytes|];
    }
  }

  /** A write section that does not finish leaves the pipe full. */
  lemma WriteOutcome(f: Fifo, data: seq<byte>)
    requires Sound(f)
    ensures var (g, r) := WriteSection(f, data); var n := Fits(f, |data|);
            && Sound(g) && g.sent == f.sent + data[..n] && g.received == f.received
            && (r == Wrote <==> n == |data|)
            && (r != Wrote ==> |g.sent| == |g.received| + PIPE_BUFFER_SIZE && (r == NoReaders <==> f.readers == 0))
  {
  }

  // ---- every interleaving ---------------------------------------------------------------------

  // A call of pipe_write: its data, and how many bytes of it have gone in.
  datatype Call = Call(data: seq<byte>, at: nat, ended: bool)

  // writer[i] is the call that sent byte i.
  datatype System = System(f: Fifo, writer: seq<nat>, calls: map<nat, Call>)

  datatype Action =
    | StartWrite(id: nat, data: seq<byte>)
    | ResumeWrite(w: nat)
    | Read(size: nat)
    | Open(side: Side)
    | Close(side: Side)

  function Of(s: seq<byte>, writer: seq<nat>, id: nat): seq<byte>
    requires |s| == |writer|
  {
    if s == [] then []
    else
      var n := |s| - 1;
      Of(s[..n], writer[..n], id) + if writer[n] == id then [s[n]] else []
  }

  function Copies(n: nat, id: nat): (r: seq<nat>)
    ensures |r| == n && forall i :: 0 <= i < n ==> r[i] == id
  {
    seq(n, i => id)
  }

  ghost predicate Inv(s: System) {
    && Sound(s.f) && |s.writer| == |s.f.sent|
    && (forall i :: 0 <= i < |s.writer| ==> s.writer[i] in s.calls)
    && (forall id :: id in s.calls ==> CallOk(s, id))
  }

  // The bytes sent by a call are the first ones of its data, in order.
  ghost predicate CallOk(s: System, id: nat)
    requires |s.writer| == |s.f.sent| && id in s.calls
  {
    s.calls[id].at <= |s.calls[id].data| && Of(s.f.sent, s.writer, id) == s.calls[id].data[..s.calls[id].at]
  }

  function Step(s: System, a: Action): System
    requires |s.f.received| <= |s.f.sent| <= |s.f.received| + PIPE_BUFFER_SIZE
    requires forall id :: id in s.calls ==> s.calls[id].at <= |s.calls[id].data|
  {
    if s.f.freed then s
    else
      match a
      case StartWrite(id, data) => if id in s.calls then s else s.(calls := s.calls[id := Call(data, 0, false)])
      case ResumeWrite(id) =>
        if id !in s.calls || s.calls[id].ended then s
        else
          var c := s.calls[id];
          var rest := c.data[c.at..];
          var n, (g, r) := Fits(s.f, |rest|), WriteSection(s.f, rest);
          System(g, s.writer + Copies(n, id), s.calls[id := Call(c.data, c.at + n, r != WriteBlocked)])
      case Read(size) => s.(f := ReadSection(s.f, size).0)
      case Open(side) => s.(f := Opened(s.f, side))
      case Close(side) => s.(f := Closed(s.f, side))
  }

  lemma {:induction false} OfAppend(s: seq<byte>, writer: seq<nat>, id: nat, t: seq<byte>, w: seq<nat>, me: nat)
    requires |s| == |writer| && |t| == |w| && forall i :: 0 <= i < |w| ==> w[i] == me
    ensures Of(s + t, writer + w, id) == Of(s, writer, id) + if me == id then t else []
    decreases |t|
  {
    if t == [] {
      assert s + t == s && writer + w == writer;
    } else {
      var n := |t| - 1;
      OfAppend(s, writer, id, t[..n], w[..n], me);
      assert (s + t)[..|s| + n] == s + t[..n];
      assert (writer + w)[..|s| + n] == writer + w[..n];
      assert t[..n] + [t[n]] == t;
    }
  }

  lemma {:induction false} OfNobody(s: seq<byte>, writer: seq<nat>, id: nat)
    requires |s| == |writer| && id !in writer
    ensures Of(s, writer, id) == []
  {
    if s != [] {
      OfNobody(s[..|s| - 1], writer[..|s| - 1], id);
    }
  }

  lemma ResumeInv(s: System, id: nat)
    requires Inv(s) && id in s.calls && !s.calls[id].ended && !s.f.freed
    ensures Inv(Step(s, ResumeWrite(id)))
  {
    var c := s.calls[id];
    var rest := c.data[c.at..];
    WriteOutcome(s.f, rest);
    var n, s' := Fits(s.f, |rest|), Step(s, ResumeWrite(id));
    forall x | x in s'.calls
      ensures CallOk(s', x)
    {
      assert CallOk(s, x);
      OfAppend(s.f.sent, s.writer, x, rest[..n], Copies(n, id), id);
      assert c.data[..c.at] + rest[..n] == c.data[..c.at + n];
    }
  }

  lemma StepInv(s: System, a: Action)
    requires Inv(s)
    ensures Inv(Step(s, a))
  {
    var s' := Step(s, a);
    forall x | x in s.calls
      ensures CallOk(s, x)
    {
    }
    match a
    case StartWrite(id, data) =>
      if id !in s.calls {
        OfNobody(s.f.sent, s.writer, id);
      }
    case ResumeWrite(id) =>
      if id in s.calls && !s.calls[id].ended && !s.f.freed {
        ResumeInv(s, id);
      }
    case Read(size) =>
      if size > 0 {
        ReadOutcome(s.f, size);
      } else {
        assert ReadSection(s.f, size).0.received == s.f.received;
      }
    case Open(side) =>
    case Close(side) =>
  }

  function Run(s: System, actions: seq<Action>): (s': System)
    requires Inv(s)
    ensures Inv(s')
    decreases |actions|
  {
    if actions == [] then s else StepInv(s, actions[0]); Run(Step(s, actions[0]), actions[1..])
  }

  function NewPipe(): System {
    System(Fifo([], [], 0, 0, false), [], map[])
  }

  /** Over every interleaving: the bytes read are a prefix of the bytes written, at most 1024 are pending, and the bytes
      of each write call went in in order, none twice and none missing. */
  lemma {:induction false} RunSafe(s: System, actions: seq<Action>)
    requires Inv(s)
    ensures Sound(Run(s, actions).f)
    ensures forall id :: id in Run(s, actions).calls ==> CallOk(Run(s, actions), id)
    ensures s.f.received <= Run(s, actions).f.received && s.f.sent <= Run(s, actions).f.sent
    decreases |actions|
  {
    if actions != [] {
      StepInv(s, actions[0]);
      RunSafe(Step(s, actions[0]), actions[1..]);
      StepGrows(s, actions[0]);
    }
  }

  lemma StepGrows(s: System, a: Action)
    requires Inv(s)
    ensures s.f.received <= Step(s, a).f.received && s.f.sent <= Step(s, a).f.sent
  {
  }

  /** With one writer the reader gets exactly the bytes of that writer's data, from the first, with no gap. */
  lemma SingleWriter(actions: seq<Action>, id: nat)
    requires Run(NewPipe(), actions).calls.Keys == {id}
    ensures Run(NewPipe(), actions).calls[id].at <= |Run(NewPipe(), actions).calls[id].data|
    ensures var s := Run(NewPipe(), actions);
            s.f.sent == s.calls[id].data[..s.calls[id].at] && s.f.received <= s.calls[id].data
  {
    var s := Run(NewPipe(), actions);
    RunSafe(NewPipe(), actions);
    assert CallOk(s, id);
    OfEverybody(s.f.sent, s.writer, id);
  }

  lemma {:induction false} OfEverybody(s: seq<byte>, writer: seq<nat>, id: nat)
    requires |s| == |writer| && forall i :: 0 <= i < |writer| ==> writer[i] == id
    ensures Of(s, writer, id) == s
  {
    OfAppend([], [], id, s, writer, id);
    assert [] + s == s && [] + writer == writer;
  }

  // ---- who has the pipe open ----------------------------------------------------------------------

  function Opens(actions: seq<Action>, side: Side): nat {
    if actions == [] then 0
    else Opens(actions[..|actions| - 1], side) + if actions[|actions| - 1] == Open(side) then 1 else 0
  }

  function Closes(actions: seq<Action>, side: Side): nat {
    if actions == [] then 0
    else Closes(actions[..|actions| - 1], side) + if actions[|actions| - 1] == Close(side) then 1 else 0
  }

  // Nobody closes what was not opened, and the counts stay within 32 bits.
  ghost predicate Balanced(actions: seq<Action>) {
    forall k, side :: 0 <= k <= |actions| ==> InStep(actions[..k], side)
  }

  predicate InStep(actions: seq<Action>, side: Side) {
    Closes(actions, side) <= Opens(actions, side) < Closes(actions, side) + 0x1_0000_0000
  }

  // The close at place k - 1 was the last one.
  predicate LastClose(actions: seq<Action>, k: nat) {
    && 0 < k <= |actions| && actions[k - 1].Close?
    && Opens(actions[..k], ReadSide) == Closes(actions[..k], ReadSide)
    && Opens(actions[..k], WriteSide) == Closes(actions[..k], WriteSide)
  }

  lemma {:induction false} RunSnoc(s: System, actions: seq<Action>, a: Action)
    requires Inv(s)
    ensures Run(s, actions + [a]) == Step(Run(s, actions), a)
    decreases |actions|
  {
    hide Step;
    if actions == [] {
      assert (actions + [a])[1..] == [];
    } else {
      StepInv(s, actions[0]);
      RunSnoc(Step(s, actions[0]), actions[1..], a);
      assert (actions + [a])[1..] == actions[1..] + [a];
    }
  }

  lemma NewPipeInv()
    ensures Inv(NewPipe())
  {
  }

  /** The counts of a pipe are, over every run, the openings of each side less the closings, and it is freed exactly at a
      close after which both are zero. */
  lemma {:induction false} Openers(actions: seq<Action>)
    requires Balanced(actions)
    ensures Inv(NewPipe())
    ensures var f := Run(NewPipe(), actions).f;
            && (f.freed <==> exists k: nat :: LastClose(actions, k))
            && (!f.freed ==>
                  && f.readers == Opens(actions, ReadSide) - Closes(actions, ReadSide)
                  && f.writers == Opens(actions, WriteSide) - Closes(actions, WriteSide))
    decreases |actions|
  {
    NewPipeInv();
    if actions == [] {
      assert forall k: nat :: !LastClose(actions, k);
    } else {
      var n := |actions| - 1;
      var before, a := actions[..n], actions[n];
      assert actions == before + [a];
      BalancedBefore(actions);
      Openers(before);
      RunSnoc(NewPipe(), before, a);
      LastCloseNext(actions, before);
      assert actions[..n + 1] == actions;
      var m := n + 1;
      assert InStep(actions[..m], ReadSide) && InStep(actions[..m], WriteSide);
      var s := Run(NewPipe(), before);
      RunSafe(NewPipe(), before);
      hide Run, Balanced;
      CountStep(s, before, a);
    }
  }

  lemma BalancedBefore(actions: seq<Action>)
    requires Balanced(actions) && actions != []
    ensures Balanced(actions[..|actions| - 1])
  {
    hide InStep;
    var before := actions[..|actions| - 1];
    forall k, side | 0 <= k <= |before|
      ensures InStep(before[..k], side)
    {
      assert before[..k] == actions[..k];
    }
  }

  lemma LastCloseNext(actions: seq<Action>, before: seq<Action>)
    requires actions != [] && before == actions[..|actions| - 1]
    ensures (exists k: nat :: LastClose(actions, k)) <==>
              (exists k: nat :: LastClose(before, k)) || LastClose(actions, |actions|)
  {
    hide Opens, Closes;
    forall k: nat | 0 < k < |actions| ensures LastClose(actions, k) <==> LastClose(before, k) {
      assert before[..k] == actions[..k];
    }
    if k: nat :| LastClose(actions, k) {
      assert k < |actions| ==> LastClose(before, k);
    }
    if k: nat :| LastClose(before, k) {
      assert LastClose(actions, k);
    }
  }

  // One action and the counts.
  lemma CountStep(s: System, before: seq<Action>, a: Action)
    requires Inv(s) && (!s.f.freed ==> Counts(s.f, before))
    requires InStep(before + [a], ReadSide) && InStep(before + [a], WriteSide)
    ensures var f := Step(s, a).f;
            && (f.freed <==> s.f.freed || LastClose(before + [a], |before| + 1))
            && (!f.freed ==> Counts(f, before + [a]))
  {
    var actions := before + [a];
    assert actions[..|before|] == before && actions[..|before| + 1] == actions;
    forall side ensures Opens(actions, side) == Opens(before, side) + if a == Open(side) then 1 else 0 {
    }
    forall side ensures Closes(actions, side) == Closes(before, side) + if a == Close(side) then 1 else 0 {
    }
    StepSides(s, a);
    hide Opens, Closes, Step, Inv;
  }

  ghost predicate Counts(f: Fifo, actions: seq<Action>) {
    && f.readers == Opens(actions, ReadSide) - Closes(actions, ReadSide)
    && f.writers == Opens(actions, WriteSide) - Closes(actions, WriteSide)
  }

  lemma StepSides(s: System, a: Action)
    requires Inv(s)
    ensures s.f.freed ==> Step(s, a) == s
    ensures !s.f.freed ==>
              && Step(s, a).f.readers == (s.f.readers + (if a == Open(ReadSide) then 1 else if a == Close(ReadSide) then 0xFFFF_FFFF else 0)) % 0x1_0000_0000
              && Step(s, a).f.writers == (s.f.writers + (if a == Open(WriteSide) then 1 else if a == Close(WriteSide) then 0xFFFF_FFFF else 0)) % 0x1_0000_0000
              && (Step(s, a).f.freed <==> a.Close? && Step(s, a).f.readers == 0 && Step(s, a).f.writers == 0)
  {
  }

  /** End of file, over every run: a read that asks for something returns nothing exactly when the pipe is drained and
      everyone who opened it for writing has closed it, and sleeps exactly when it is drained and somebody has not. */
  lemma EndOfFile(actions: seq<Action>, size: nat)
    requires Balanced(actions) && size > 0 && forall k: nat :: !LastClose(actions, k)
    ensures Inv(NewPipe())
    ensures var f := Run(NewPipe(), actions).f; var left := Opens(actions, WriteSide) - Closes(actions, WriteSide);
            && f.received <= f.sent && |f.sent| <= |f.received| + 1024
            && (ReadSection(f, size).1 == Got([]) <==> f.received == f.sent && left == 0)
            && (ReadSection(f, size).1 == ReadBlocked <==> f.received == f.sent && left > 0)
  {
    Openers(actions);
    hide Run, Opens, Closes, ReadSection;
    ReadOutcome(Run(NewPipe(), actions).f, size);
  }

  /** A writer gives up, over every run, exactly when the ring is full with data left and everyone who opened it for reading
      has closed it. */
  lemma BrokenPipe(actions: seq<Action>, data: seq<byte>)
    requires Balanced(actions) && forall k: nat :: !LastClose(actions, k)
    ensures Inv(NewPipe())
    ensures var f := Run(NewPipe(), actions).f; var left := Opens(actions, ReadSide) - Closes(actions, ReadSide);
            && |f.received| <= |f.sent| <= |f.received| + 1024
            && (WriteSection(f, data).1 == Wrote <==> |f.sent| + |data| <= |f.received| + 1024)
            && (WriteSection(f, data).1 == NoReaders <==> |f.sent| + |data| > |f.received| + 1024 && left == 0)
  {
    Openers(actions);
    hide Run, Opens, Closes;
    WriteOutcome(Run(NewPipe(), actions).f, data);
  }

  // ---- the pipe in memory -------------------------------------------------------------------------

  class VfsPipe {
    const buffer: array<byte>
    var readers: nat
    var writers: nat
    var readPos: nat
    var writePos: nat
    var freed: bool
    ghost var sent: seq<byte>
    ghost var received: seq<byte>

    ghost function State(): Fifo
      reads this
    {
      Fifo(sent, received, readers, writers, freed)
    }

    ghost predicate Valid()
      reads this, buffer
    {
      && buffer.Length == PIPE_BUFFER_SIZE && Sound(State())
      && readPos == |received| % WRAP && writePos == |sent| % WRAP
      && Holds(buffer[..], sent, |received|)
    }

    constructor ()
      ensures Valid() && State() == NewPipe().f && fresh(buffer)
    {
      buffer := new byte[PIPE_BUFFER_SIZE];
      readers, writers, readPos, writePos, freed := 0, 0, 0, 0, false;
      sent, received := [], [];
    }

    // pipe_open: panics when the side and the mode differ.
    method PipeOpen(side: Side, mode: Side) returns (panic: bool)
      requires Valid() && !freed
      modifies this
      ensures Valid() && panic == (side != mode)
      ensures State() == if panic then old(State()) else Opened(old(State()), mode)
    {
      if mode == ReadSide {
        if side != ReadSide {
          return true;
        }
        readers := (readers + 1) % WRAP;
      } else {
        if side != WriteSide {
          return true;
        }
        writers := (writers + 1) % WRAP;
      }
      return false;
    }

    method PipeClose(side: Side)
      requires Valid() && !freed
      modifies this
      ensures Valid() && State() == Closed(old(State()), side)
    {
      if side == ReadSide {
        readers := (readers + WRAP - 1) % WRAP;
      } else {
        writers := (writers + WRAP - 1) % WRAP;
      }
      if readers == 0 && writers == 0 {
        freed := true;
      }
    }

    method TakeByte() returns (b: byte)
      requires Valid() && |received| < |sent|
      modifies this`readPos, this`received
      ensures Valid() && b == sent[|old(received)|] && received == old(received) + [b]
    {
      hide Holds;
      SlotAcrossWrap(|received|);
      NextCount(|received|);
      TakeHolds(buffer[..], sent, |received|);
      PrefixNext(received, sent);
      b := buffer[readPos % PIPE_BUFFER_SIZE];
      readPos := (readPos + 1) % WRAP;
      received := received + [b];
    }

    method PutByte(b: byte)
      requires Valid() && |sent| < |received| + PIPE_BUFFER_SIZE
      modifies this`writePos, this`sent, buffer
      ensures Valid() && sent == old(sent) + [b]
    {
      hide Holds;
      SlotAcrossWrap(|sent|);
      NextCount(|sent|);
      PutHolds(buffer[..], sent, |received|, b);
      buffer[writePos % PIPE_BUFFER_SIZE] := b;
      writePos := (writePos + 1) % WRAP;
      sent := sent + [b];
      assert buffer[..] == old(buffer[..])[|old(sent)| % PIPE_BUFFER_SIZE := b];
    }

    /** pipe_read from taking the lock to giving it up: to sleep, or for good with n bytes in the caller's buffer. */
    method PipeRead(out: array<byte>, size: nat) returns (blocked: bool, n: nat)
      requires Valid() && !freed && size <= out.Length && out != buffer
      modifies this`readPos, this`received, out
      ensures Valid() && n <= size
      ensures State() == ReadSection(old(State()), size).0
      ensures ReadSection(old(State()), size).1 == if blocked then ReadBlocked else Got(out[..n])
      ensures blocked ==> n == 0
      ensures forall i :: n <= i < out.Length ==> out[i] == old(out[i])
    {
      hide Holds;
      CountersTell(|sent|, |received|);
      if readPos == writePos && writers > 0 {
        return true, 0;
      }
      n := 0;
      while n < size
        invariant 0 <= n <= size && Valid() && n <= |sent| - |old(received)|
        invariant received == old(received) + sent[|old(received)|..][..n]
        invariant out[..n] == sent[|old(received)|..][..n]
        invariant forall i :: n <= i < out.Length ==> out[i] == old(out[i])
      {
        CountersTell(|sent|, |received|);
        if readPos == writePos {
          break;
        }
        var b := TakeByte();
        out[n] := b;
        n := n + 1;
      }
      return false, n;
    }

    /** pipe_write from taking the lock to giving it up, with the bytes from place `at` still to go. */
    method PipeWrite(data: seq<byte>, at: nat) returns (r: WriteResult, next: nat)
      requires Valid() && !freed && at <= |data|
      modifies this`writePos, this`sent, buffer
      ensures Valid() && next == at + Fits(old(State()), |data| - at)
      ensures State() == WriteSection(old(State()), data[at..]).0 && r == WriteSection(old(State()), data[at..]).1
    {
      next := at;
      while next < |data|
        invariant at <= next <= |data| && Valid()
        invariant sent == old(sent) + data[at..][..next - at]
      {
        CountersTell(|sent|, |received|);
        if writePos == (readPos + PIPE_BUFFER_SIZE) % WRAP {
          if readers == 0 {
            return NoReaders, next;
          }
          return WriteBlocked, next;
        }
        PutByte(data[next]);
        next := next + 1;
      }
      return Wrote, next;
    }
  }
}
