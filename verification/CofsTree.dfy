/**
Files and directories together: any run of reads, writes and truncates of files and of
finds, links and unlinks in directories, on one disk, agrees with the same run on flat
files and finite maps from names to inode numbers.
*/
module CofsTree {
  import opened Block
  import opened Sums
  import opened CofsLayout
  import opened Cofs
  import opened CofsCensus
  import opened CofsRun
  import opened CofsDir

  // The contents of all files, and of those that are directories the names they bind.
  datatype Tree = Tree(files: Files, dirs: map<nat, map<Name, nat>>)

  datatype TreeOp =
    | FileOp(op: Op)
    | Find(dino: nat, name: Name)
    | Link(dino: nat, name: Name, inum: nat)
    | Unlink(dino: nat, name: Name)

  datatype Reply = Bytes(data: seq<byte>) | Number(code: int)

  ghost predicate TreeOk(t: Tree) {
    forall d :: d in t.dirs ==> d in t.files && IsDirectory(t.files[d], t.dirs[d])
  }

  // What callers see to: names that fit, and no plain write to a directory.
  predicate ProperFor(dirs: set<nat>, op: TreeOp) {
    match op
    case FileOp(o) => FitsWord(o) && (o.ReadOp? || o.ino !in dirs)
    case Find(d, name) => d in dirs && 0 !in name
    case Link(d, name, inum) => d in dirs && 0 < |name| < DIRSIZE && 0 !in name && 0 < inum < WORD_LIMIT
    case Unlink(d, name) => d in dirs && 0 !in name
  }

  predicate Proper(t: Tree, op: TreeOp) {
    ProperFor(t.dirs.Keys, op)
  }

  // ---- on flat files and maps ---------------------------------------------------------

  ghost function Become(t: Tree, d: nat, c: seq<byte>, m: map<Name, nat>): Tree {
    Tree(t.files[d := c], t.dirs[d := m])
  }

  ghost function TreeDo(t: Tree, op: TreeOp): (t': Tree)
    requires TreeOk(t) && Proper(t, op)
    ensures t'.dirs.Keys == t.dirs.Keys
  {
    match op
    case FileOp(o) => t.(files := Do(t.files, o))
    case Find(_, _) => t
    case Link(d, name, inum) =>
      if name in t.dirs[d] then t else Become(t, d, Linked(t.files[d], name, inum), t.dirs[d][name := inum])
    case Unlink(d, name) =>
      if name !in t.dirs[d] then t
      else
        var x := NodeName(t.dirs[d][name], name);
        Become(t, d, Cleared(t.files[d], x), t.dirs[d] - {x})
  }

  ghost function ReplyTo(t: Tree, op: TreeOp): Reply
    requires Proper(t, op)
  {
    match op
    case FileOp(o) => Bytes(Answer(t.files, o))
    case Find(d, name) => Number(Lookup(t.dirs[d], name))
    case Link(d, name, _) => Number(if name in t.dirs[d] then -1 else 0)
    case Unlink(d, name) => Number(if name in t.dirs[d] then 0 else -1)
  }

  ghost function TreeJudge(g: Geometry, t: Tree, op: TreeOp): Verdict
    requires TreeOk(t) && Proper(t, op)
  {
    match op
    case FileOp(o) => Judge(g, t.files, o)
    case Find(_, _) => Fine
    case Link(d, name, inum) =>
      if name in t.dirs[d] then Fine
      else if LinkOffset(t.files[d]) + ENTRY > WRITE_LIMIT then Asserts
      else Fitting(g, TreeDo(t, op).files)
    case Unlink(d, name) =>
      if name !in t.dirs[d] then Fine
      else
        var x := NodeName(t.dirs[d][name], name);
        if x !in t.dirs[d] || ClearOffset(t.files[d], x) + ENTRY > WRITE_LIMIT then Asserts else Fine
  }

  /** An operation that runs leaves directories directories, each with the names the operation calls for. */
  lemma TreeDoOk(g: Geometry, t: Tree, op: TreeOp)
    requires TreeOk(t) && Proper(t, op) && TreeJudge(g, t, op) == Fine
    ensures TreeOk(TreeDo(t, op))
  {
    hide IsDirectory, Linked, Cleared, Demand, LinkOffset, ClearOffset, Splice;
    match op
    case FileOp(o) =>
    case Find(_, _) =>
    case Link(d, name, inum) =>
      if name !in t.dirs[d] {
        LinkedIs(t.files[d], t.dirs[d], name, inum);
      }
    case Unlink(d, name) =>
      if name in t.dirs[d] {
        ClearedIs(t.files[d], t.dirs[d], NodeName(t.dirs[d][name], name));
      }
  }

  // ---- on the disk -----------------------------------------------------------------------

  ghost predicate Holds(fs: FileSystem, t: Tree)
    reads fs
  {
    Mounted(fs) && View(fs.disk, fs.nodes) == t.files && TreeOk(t)
  }

  // A directory as its bytes.
  lemma DirIs(fs: FileSystem, t: Tree, d: nat)
    requires Holds(fs, t) && d in t.dirs
    ensures d in fs.nodes && d in t.files && fs.nodes.Keys == t.files.Keys
    ensures Dir(fs, d) == t.files[d] && IsDense(fs.disk, fs.nodes, d)
    ensures IsDirectory(t.files[d], t.dirs[d]) && |t.files[d]| % ENTRY == 0
    ensures Blocks(|t.files[d]|) <= MAX_BLOCKS
  {
    SizeBound(fs.g, fs.disk, fs.nodes, fs.owner, d);
    hide Inv, Dense, Content, Represents;
    assert fs.nodes[d].size == |t.files[d]|;
  }

  method DoFind(fs: FileSystem, d: nat, name: Name, ghost t: Tree) returns (code: int)
    requires Holds(fs, t) && Proper(t, Find(d, name))
    modifies fs
    ensures Holds(fs, t) && code == Lookup(t.dirs[d], name)
  {
    hide Inv, Dense, Content, IsDirectory, Lookup, OthersKept, TreeOk;
    DirIs(fs, t, d);
    var r := FindDir(fs, d, name, t.dirs[d]);
    code := r.code;
  }

  // The disk after one directory was given other bytes.
  lemma HoldsNext(g: Geometry, d0: Disk, n0: map<nat, Inode>, d1: Disk, n1: map<nat, Inode>, owner: map<nat, Loc>,
                  t: Tree, d: nat, c: seq<byte>)
    requires View(d0, n0) == t.files && AllDense(d0, n0) && d in n0 && n1.Keys == n0.Keys
    requires OthersKept(d0, n0, d1, n1, d) && forall i :: i in n1 && i != d ==> SameFile(d0, n0[i], d1, n1[i])
    requires Inv(g, d1, n1, owner) && IsDense(d1, n1, d) && Content(d1, n1[d]) == c
    ensures AllDense(d1, n1) && View(d1, n1) == t.files[d := c] && |owner| == Demand(t.files[d := c]) <= DataBlocks(g)
  {
    hide Inv, Dense, Content, OthersKept, SameFile, Demand;
    StepView(d0, n0, d1, n1, d);
    Census(g, d1, n1, owner);
  }

  // A disk that is full while a directory is being written to needs more blocks than it has.
  lemma FullNext(g: Geometry, d0: Disk, n0: map<nat, Inode>, d1: Disk, n1: map<nat, Inode>, owner: map<nat, Loc>,
                 t: Tree, d: nat, c: seq<byte>, e: nat)
    requires View(d0, n0) == t.files && AllDense(d0, n0) && d in n0 && n1.Keys == n0.Keys
    requires OthersKept(d0, n0, d1, n1, d) && forall i :: i in n1 && i != d ==> SameFile(d0, n0[i], d1, n1[i])
    requires Inv(g, d1, n1, owner) && Full(g, d1) && Short(d1, n1[d], e) && e <= MAX_BLOCKS && e <= Blocks(|c|)
    ensures Demand(t.files[d := c]) > DataBlocks(g)
  {
    hide Inv, Dense, Content, OthersKept, SameFile, Demand, Full, Short;
    StepView(d0, n0, d1, n1, d);
    ShortDemand(g, d1, n1, owner, d, t.files[d := c], e);
  }

  method DoLink(fs: FileSystem, d: nat, name: Name, inum: nat, ghost t: Tree) returns (s: Status, code: int)
    requires Holds(fs, t) && Proper(t, Link(d, name, inum))
    modifies fs
    ensures Agrees(s, TreeJudge(fs.g, t, Link(d, name, inum)))
    ensures s == Status.Failed(NoSpace) ==> Full(fs.g, fs.disk)
    ensures s.Ran? ==> Holds(fs, TreeDo(t, Link(d, name, inum))) && Number(code) == ReplyTo(t, Link(d, name, inum))
  {
    hide Inv, Dense, Content, IsDirectory, OthersKept, SameFile, Demand, Linked, LinkOffset, Short, Full, TreeOk, AllDense, View, TakenLow, OnDevice;
    DirIs(fs, t, d);
    ghost var op, c := Link(d, name, inum), Linked(t.files[d], name, inum);
    var r := DirLink(fs, d, name, inum, t.dirs[d]);
    code := 0;
    if r.Panicked? {
      LinkNeeds(t.files[d], name, inum);
      FullNext(fs.g, old(fs.disk), old(fs.nodes), fs.disk, fs.nodes, fs.owner, t, d, c,
               Blocks(LinkOffset(t.files[d]) + ENTRY));
      return Status.Failed(r.why), 0;
    }
    if r.Assertion? {
      return AssertFailed, 0;
    }
    code := r.code;
    s := Ran;
    if code == 0 {
      HoldsNext(fs.g, old(fs.disk), old(fs.nodes), fs.disk, fs.nodes, fs.owner, t, d, c);
      DeviceIff(fs.g, fs.disk, fs.nodes, old(fs.owner), fs.owner);
      hide OnDevice, TakenLow;
      var past := MarksPast(fs);
      if past {
        return Strayed, 0;
      }
      TreeDoOk(fs.g, t, op);
    }
  }

  // A new entry lies within the directory it makes.
  lemma LinkNeeds(c: seq<byte>, name: Name, inum: nat)
    requires |c| % ENTRY == 0 && inum < WORD_LIMIT
    ensures var off := LinkOffset(c);
            && Blocks(off + ENTRY) <= Blocks(|Linked(c, name, inum)|)
            && (off + ENTRY <= WRITE_LIMIT ==> Blocks(off + ENTRY) <= MAX_BLOCKS)
  {
    hide Entries, FirstDead, Encode;
    SpliceSize(c, LinkOffset(c), Encode(inum, name));
  }

  method DoUnlink(fs: FileSystem, d: nat, name: Name, ghost t: Tree) returns (s: Status, code: int)
    requires Holds(fs, t) && Proper(t, Unlink(d, name))
    modifies fs
    ensures Agrees(s, TreeJudge(fs.g, t, Unlink(d, name)))
    ensures s.Ran? ==> Holds(fs, TreeDo(t, Unlink(d, name))) && Number(code) == ReplyTo(t, Unlink(d, name))
  {
    hide Inv, Dense, Content, IsDirectory, OthersKept, SameFile, Demand, Cleared, ClearOffset, Short, Full,
         TreeOk, AllDense, View, NodeName, TakenLow, OnDevice;
    DirIs(fs, t, d);
    ghost var op := Unlink(d, name);
    HasBlocks(fs, t);
    var r := CofsDir.Unlink(fs, d, name, t.dirs[d]);
    code := 0;
    if r.Assertion? {
      return AssertFailed, 0;
    }
    code := r.code;
    if name in t.dirs[d] {
      ghost var x := NodeName(t.dirs[d][name], name);
      HoldsNext(fs.g, old(fs.disk), old(fs.nodes), fs.disk, fs.nodes, fs.owner, t, d, Cleared(t.files[d], x));
      DeviceIff(fs.g, fs.disk, fs.nodes, old(fs.owner), fs.owner);
      SameDemand(t.files, d, Cleared(t.files[d], x));
      TreeDoOk(fs.g, t, op);
    }
    s := Ran;
  }

  lemma HasBlocks(fs: FileSystem, t: Tree)
    requires Holds(fs, t)
    ensures Demand(t.files) <= DeviceBlocks(fs.g) <= DataBlocks(fs.g)
  {
    GeometryOf(fs.g, fs.disk, fs.nodes, fs.owner);
    hide Inv, Dense, Demand, Content, TreeOk;
    Census(fs.g, fs.disk, fs.nodes, fs.owner);
    DeviceBound(fs.g, fs.disk, fs.nodes, fs.owner);
  }

  lemma GeometryOf(g: Geometry, disk: Disk, nodes: map<nat, Inode>, owner: map<nat, Loc>)
    requires Inv(g, disk, nodes, owner)
    ensures DeviceBlocks(g) <= DataBlocks(g)
  {
  }

  lemma SameDemand(files: Files, d: nat, c: seq<byte>)
    requires d in files && |c| == |files[d]|
    ensures Demand(files[d := c]) == Demand(files)
  {
    hide Sum;
    assert Counts(files[d := c]) == Counts(files);
  }

  method DoFile(fs: FileSystem, o: Op, ghost t: Tree) returns (s: Status, data: seq<byte>)
    requires Holds(fs, t) && Proper(t, FileOp(o))
    modifies fs
    ensures Agrees(s, TreeJudge(fs.g, t, FileOp(o)))
    ensures s.Ran? ==> Holds(fs, TreeDo(t, FileOp(o))) && Bytes(data) == ReplyTo(t, FileOp(o))
  {
    hide Inv, Dense, Content, IsDirectory, Judge, Answer;
    s, data := Step(fs, o);
  }

  method TreeStep(fs: FileSystem, op: TreeOp, ghost t: Tree) returns (s: Status, reply: Reply)
    requires Holds(fs, t) && Proper(t, op)
    modifies fs
    ensures Agrees(s, TreeJudge(fs.g, t, op))
    ensures s.Ran? ==> Holds(fs, TreeDo(t, op)) && reply == ReplyTo(t, op)
  {
    hide Holds, Judge, Do, Answer, Demand;
    s, reply := Ran, Number(0);
    var code;
    match op
    case FileOp(o) =>
      var data;
      s, data := DoFile(fs, o, t);
      reply := Bytes(data);
    case Find(d, name) =>
      code := DoFind(fs, d, name, t);
      reply := Number(code);
    case Link(d, name, inum) =>
      s, code := DoLink(fs, d, name, inum, t);
      reply := Number(code);
    case Unlink(d, name) =>
      s, code := DoUnlink(fs, d, name, t);
      reply := Number(code);
  }

  // One operation of a run: it was allowed, and made the next tree and the reply.
  ghost predicate RanFrom(g: Geometry, t: Tree, op: TreeOp, t': Tree, reply: Reply) {
    TreeOk(t) && Proper(t, op) && TreeJudge(g, t, op) == Fine && t' == TreeDo(t, op) && reply == ReplyTo(t, op)
  }

  ghost predicate Traces(g: Geometry, ops: seq<TreeOp>, states: seq<Tree>, replies: seq<Reply>) {
    && |states| == |replies| + 1 && |replies| <= |ops|
    && forall k, l :: 0 <= k < l < |states| && l == k + 1 ==> RanFrom(g, states[k], ops[k], states[l], replies[k])
  }

  /** Over every run of file and directory operations the disk holds the tree that the operations so far make, and each
      reply is the tree's. The run ends with the first operation the tree forbids, and with the status it calls for. */
  method TreeRun(fs: FileSystem, ops: seq<TreeOp>, ghost t: Tree)
    returns (s: Status, replies: seq<Reply>, ghost states: seq<Tree>)
    requires Holds(fs, t) && forall i :: 0 <= i < |ops| ==> Proper(t, ops[i])
    modifies fs
    ensures Traces(fs.g, ops, states, replies) && states[0] == t
    ensures s.Ran? <==> |replies| == |ops|
    ensures s.Ran? ==> Holds(fs, states[|replies|])
    ensures !s.Ran? ==>
              && TreeOk(states[|replies|]) && Proper(states[|replies|], ops[|replies|])
              && Agrees(s, TreeJudge(fs.g, states[|replies|], ops[|replies|]))
  {
    hide TreeOk, TreeJudge, TreeDo, ReplyTo, ProperFor;
    replies, states := [], [t];
    var k := 0;
    while k < |ops|
      invariant 0 <= k == |replies| <= |ops| && Traces(fs.g, ops, states, replies)
      invariant states[0] == t && states[k].dirs.Keys == t.dirs.Keys && Holds(fs, states[k])
    {
      var reply;
      ghost var now := states[k];
      assert Proper(now, ops[k]);
      s, reply := TreeStep(fs, ops[k], now);
      if !s.Ran? {
        return;
      }
      replies, states := replies + [reply], states + [TreeDo(now, ops[k])];
      k := k + 1;
    }
    s := Ran;
  }

  // ---- what the operations mean, run by run -------------------------------------------------

  /** Unlinking a name that is bound, not to the root, in a directory no longer than a write reaches: it runs, replies 0,
      and takes that binding and nothing else. */
  lemma UnlinkLaw(g: Geometry, t: Tree, d: nat, n: Name)
    requires TreeOk(t) && Proper(t, Unlink(d, n)) && n in t.dirs[d] && t.dirs[d][n] != 1 && |t.files[d]| <= 8388742
    ensures TreeJudge(g, t, Unlink(d, n)) == Fine && ReplyTo(t, Unlink(d, n)) == Number(0)
    ensures TreeDo(t, Unlink(d, n)).dirs == t.dirs[d := t.dirs[d] - {n}]
    ensures forall i :: i in t.files && i != d ==>
              i in TreeDo(t, Unlink(d, n)).files && TreeDo(t, Unlink(d, n)).files[i] == t.files[i]
  {
    hide IsDirectory, Cleared;
    ClearedIs(t.files[d], t.dirs[d], n);
  }

  /** Unlinking a name that is bound to the root fails the assertion, unless the directory also has an entry "/". */
  lemma UnlinkRoot(g: Geometry, t: Tree, d: nat, n: Name)
    requires TreeOk(t) && Proper(t, Unlink(d, n)) && n in t.dirs[d] && t.dirs[d][n] == 1 && [47] !in t.dirs[d]
    ensures TreeJudge(g, t, Unlink(d, n)) == Asserts
  {
  }

  /** Linking a new name in a directory that a write can still reach the end of: it runs exactly when the device has blocks
      enough, replies 0, and adds that binding and nothing else. */
  lemma LinkLaw(g: Geometry, t: Tree, d: nat, n: Name, i: nat)
    requires ValidGeometry(g) && TreeOk(t) && Proper(t, Link(d, n, i)) && n !in t.dirs[d] && |t.files[d]| + 32 <= 8388742
    ensures TreeJudge(g, t, Link(d, n, i)) == Fine <==> Demand(TreeDo(t, Link(d, n, i)).files) <= g.size - g.meta
    ensures ReplyTo(t, Link(d, n, i)) == Number(0)
    ensures var t' := TreeDo(t, Link(d, n, i));
            t'.dirs.Keys == t.dirs.Keys && t'.dirs[d] == t.dirs[d][n := i] && forall e :: e in t.dirs && e != d ==> t'.dirs[e] == t.dirs[e]
    ensures forall j :: j in t.files && j != d ==>
              j in TreeDo(t, Link(d, n, i)).files && TreeDo(t, Link(d, n, i)).files[j] == t.files[j]
  {
    hide Demand, Linked, Entries, FirstDead, Represents;
    assert LinkOffset(t.files[d]) <= |t.files[d]|;
  }

  // A new entry is the first of its name.
  lemma LinkedPlace(c: seq<byte>, m: map<Name, nat>, n: Name, i: nat)
    requires IsDirectory(c, m) && n !in m && 0 < |n| < DIRSIZE && 0 !in n && 0 < i < WORD_LIMIT
    ensures |c| % ENTRY == 0 && |Linked(c, n, i)| % ENTRY == 0 && ClearOffset(Linked(c, n, i), n) == LinkOffset(c)
  {
    hide NameOf, InumOf, Entries, Encode, Splice, FirstNamed, FirstDead;
    var es, k, e := Entries(c), FirstDead(Entries(c)), Encode(i, n);
    SpliceEntries(c, k, e);
    EntryGood(i, n);
    var es' := WithEntry(es, k, e);
    assert Entries(Linked(c, n, i)) == es' && es'[k] == e;
    forall j | 0 <= j < k ensures NameOf(es'[j]) != n {
      assert es'[j] == es[j] && Live(es[j]);
    }
  }

  /** A name that was linked, not to the root, can be unlinked at once; that replies 0 and restores every directory. */
  lemma LinkUnlink(g: Geometry, t: Tree, d: nat, n: Name, i: nat)
    requires TreeOk(t) && Proper(t, Link(d, n, i)) && n !in t.dirs[d] && i != 1 && TreeJudge(g, t, Link(d, n, i)) == Fine
    ensures var t1 := TreeDo(t, Link(d, n, i));
            && TreeOk(t1) && ReplyTo(t, Link(d, n, i)) == Number(0) && t1.dirs[d] == t.dirs[d][n := i]
            && TreeJudge(g, t1, Unlink(d, n)) == Fine && ReplyTo(t1, Unlink(d, n)) == Number(0)
            && TreeDo(t1, Unlink(d, n)).dirs == t.dirs
  {
    hide IsDirectory, Linked, Cleared, Demand, LinkOffset, ClearOffset;
    TreeDoOk(g, t, Link(d, n, i));
    LinkedPlace(t.files[d], t.dirs[d], n, i);
    var m: map<Name, nat> := t.dirs[d][n := i];
    assert m - {n} == t.dirs[d];
    var t1 := TreeDo(t, Link(d, n, i));
    assert t1.files[d] == Linked(t.files[d], n, i);
    assert t.dirs[d := m][d := t.dirs[d]] == t.dirs;
  }

  lemma At(g: Geometry, ops: seq<TreeOp>, states: seq<Tree>, replies: seq<Reply>, k: nat)
    requires Traces(g, ops, states, replies) && k < |replies|
    ensures k < |ops| && RanFrom(g, states[k], ops[k], states[k + 1], replies[k])
  {
    hide RanFrom;
    var l := k + 1;
    assert RanFrom(g, states[k], ops[k], states[l], replies[k]);
  }

  /** In a run: a link that replied 0 and was not to the root is undone by an unlink right after it. The run gets past
      the unlink, the reply is 0, and all directories are what they were before. */
  lemma RunLinkUnlink(g: Geometry, ops: seq<TreeOp>, states: seq<Tree>, replies: seq<Reply>, k: nat, d: nat, n: Name, i: nat)
    requires Traces(g, ops, states, replies) && k < |replies| && k + 1 < |ops| && i != 1
    requires ops[k] == Link(d, n, i) && ops[k + 1] == Unlink(d, n) && replies[k] == Number(0)
    ensures TreeOk(states[k + 1]) && Proper(states[k + 1], Unlink(d, n)) && TreeJudge(g, states[k + 1], Unlink(d, n)) == Fine
    ensures k + 1 < |replies| ==> replies[k + 1] == Number(0) && states[k + 2].dirs == states[k].dirs
  {
    hide TreeOk, TreeJudge, TreeDo;
    At(g, ops, states, replies, k);
    LinkUnlink(g, states[k], d, n, i);
    if k + 1 < |replies| {
      At(g, ops, states, replies, k + 1);
    }
  }

  // No unlink of n, nor of an entry that names the root, in directory d.
  ghost predicate Leaves(t: Tree, op: TreeOp, d: nat, n: Name) {
    op.Unlink? && op.dino == d ==> op.name != n && (d in t.dirs && op.name in t.dirs[d] ==> t.dirs[d][op.name] != 1)
  }

  lemma StaysBound(g: Geometry, t: Tree, op: TreeOp, t': Tree, reply: Reply, d: nat, n: Name, i: nat)
    requires RanFrom(g, t, op, t', reply) && d in t.dirs && n in t.dirs[d] && t.dirs[d][n] == i && Leaves(t, op, d, n)
    ensures d in t'.dirs && n in t'.dirs[d] && t'.dirs[d][n] == i
  {
    hide TreeOk, TreeJudge, Linked, Cleared;
  }

  /** In a run: after a link that replied 0 a find of that name replies the inode number linked, whatever is done to
      files, to other directories and to other names in between. */
  lemma {:induction false} FindAfterLink(g: Geometry, ops: seq<TreeOp>, states: seq<Tree>, replies: seq<Reply>, k: nat, l: nat,
                                         d: nat, n: Name, i: nat)
    requires Traces(g, ops, states, replies) && k < l <= |replies|
    requires ops[k] == Link(d, n, i) && replies[k] == Number(0)
    requires forall j :: k < j < l ==> Leaves(states[j], ops[j], d, n)
    ensures d in states[l].dirs && n in states[l].dirs[d] && states[l].dirs[d][n] == i
    ensures l < |replies| && ops[l] == Find(d, n) ==> replies[l] == Number(i)
    decreases l
  {
    hide RanFrom, Leaves;
    At(g, ops, states, replies, l - 1);
    if l - 1 > k {
      FindAfterLink(g, ops, states, replies, k, l - 1, d, n, i);
      StaysBound(g, states[l - 1], ops[l - 1], states[l], replies[l - 1], d, n, i);
    } else {
      LinkBinds(g, states[k], states[l], d, n, i);
    }
    if l < |replies| {
      At(g, ops, states, replies, l);
      if ops[l] == Find(d, n) {
        FindReplies(g, states[l], states[l + 1], replies[l], d, n);
      }
    }
  }

  lemma LinkBinds(g: Geometry, t: Tree, t': Tree, d: nat, n: Name, i: nat)
    requires RanFrom(g, t, Link(d, n, i), t', Number(0))
    ensures d in t'.dirs && n in t'.dirs[d] && t'.dirs[d][n] == i
  {
    hide TreeOk, TreeJudge, Linked;
  }

  lemma FindReplies(g: Geometry, t: Tree, t': Tree, reply: Reply, d: nat, n: Name)
    requires RanFrom(g, t, Find(d, n), t', reply)
    ensures d in t.dirs && reply == Number(if n in t.dirs[d] then t.dirs[d][n] else 0)
  {
    hide TreeOk, TreeJudge;
  }

  /** In a run: after an unlink that replied 0, of a name not bound to the root, a find of it replies 0 until it is linked
      again. */
  lemma {:induction false} FindAfterUnlink(g: Geometry, ops: seq<TreeOp>, states: seq<Tree>, replies: seq<Reply>, k: nat, l: nat,
                                           d: nat, n: Name)
    requires Traces(g, ops, states, replies) && k < l <= |replies| && ops[k] == Unlink(d, n) && replies[k] == Number(0)
    requires d in states[k].dirs && n in states[k].dirs[d] && states[k].dirs[d][n] != 1
    requires forall j :: k < j < l ==> !(ops[j].Link? && ops[j].dino == d && ops[j].name == n)
    ensures d in states[l].dirs && n !in states[l].dirs[d]
    ensures l < |replies| && ops[l] == Find(d, n) ==> replies[l] == Number(0)
    decreases l
  {
    hide TreeOk, TreeJudge, Linked, Cleared;
    At(g, ops, states, replies, l - 1);
    if l - 1 > k {
      FindAfterUnlink(g, ops, states, replies, k, l - 1, d, n);
    }
    if l < |replies| {
      At(g, ops, states, replies, l);
    }
  }
}
