/**
mkcofs as a whole: the root directory, then for every input an inode, an entry in the
root and the contents, then the rounding of the root's size and the bitmap. The image
can be mounted, and the kernel's runs start from it, exactly when the rounding leaves
the root a block for each of its blocks.
*/
module MakeImage {
  import opened Block
  import opened Sums
  import opened CofsLayout
  import opened Cofs
  import opened CofsCensus
  import opened CofsDir
  import opened CofsRun
  import opened CofsTree
  import opened Mkcofs

  datatype Input = Input(name: Name, data: seq<byte>)

  const DOT: Name := [46]
  const DOTDOT: Name := [46, 46]

  // ---- the root directory -----------------------------------------------------------

  // Input i gets inode i + 2; "." and ".." are the root itself.
  ghost function Names(inputs: seq<Input>): map<Name, nat> {
    if inputs == [] then map[DOT := ROOT_INODE, DOTDOT := ROOT_INODE]
    else
      var k := |inputs| - 1;
      Names(inputs[..k])[inputs[k].name := k + 2]
  }

  // Names that fit an entry and differ from each other and from "." and "..".
  predicate ProperInputs(inputs: seq<Input>) {
    && (forall i :: 0 <= i < |inputs| ==>
          var x := inputs[i].name; 0 < |x| < DIRSIZE && 0 !in x && x != DOT && x != DOTDOT)
    && (forall i, j :: 0 <= i < j < |inputs| ==> inputs[i].name != inputs[j].name)
  }

  // "." and ".." are the root, and the inputs follow in order.
  lemma {:induction false} NamesAre(inputs: seq<Input>)
    requires ProperInputs(inputs)
    ensures [46] in Names(inputs) && Names(inputs)[[46]] == 1 && [46, 46] in Names(inputs) && Names(inputs)[[46, 46]] == 1
    ensures forall j :: 0 <= j < |inputs| ==> inputs[j].name in Names(inputs) && Names(inputs)[inputs[j].name] == j + 2
  {
    if inputs != [] {
      var k := |inputs| - 1;
      NamesAre(inputs[..k]);
      forall j | 0 <= j < k ensures inputs[..k][j].name != inputs[k].name {
      }
    }
  }

  lemma {:induction false} NamesIff(inputs: seq<Input>, x: Name)
    ensures x in Names(inputs) <==> x == DOT || x == DOTDOT || exists i :: 0 <= i < |inputs| && inputs[i].name == x
  {
    if inputs != [] {
      var k := |inputs| - 1;
      NamesIff(inputs[..k], x);
      if x in Names(inputs[..k]) && x != DOT && x != DOTDOT {
        var i :| 0 <= i < k && inputs[..k][i].name == x;
        assert inputs[i].name == x;
      }
      if i :| 0 <= i < |inputs| && inputs[i].name == x {
        assert i < k ==> inputs[..k][i].name == x;
      }
    }
  }

  // One more entry at the end of a directory file.
  lemma AppendIs(c: seq<byte>, m: map<Name, nat>, name: Name, inum: nat)
    requires IsDirectory(c, m) && name !in m && 0 < |name| < DIRSIZE && 0 !in name && 0 < inum < WORD_LIMIT
    ensures IsDirectory(c + Encode(inum, name), m[name := inum])
  {
    hide NameOf, InumOf, Entries, Represents, Encode, Splice;
    var k, e := |c| / ENTRY, Encode(inum, name);
    AtEnd(c, e);
    SpliceEntries(c, k, e);
    EntryGood(inum, name);
    LinkRepresents(Entries(c), m, k, e);
  }

  lemma AtEnd(c: seq<byte>, e: seq<byte>)
    ensures Splice(c, |c|, e) == c + e
  {
  }

  // Free entries at the end bind nothing.
  lemma {:induction false} PadIs(c: seq<byte>, m: map<Name, nat>, n: nat)
    requires IsDirectory(c, m)
    ensures IsDirectory(c + Zeros(n * ENTRY), m)
    decreases n
  {
    hide NameOf, InumOf, Entries, Represents, Encode, Splice, Zeros;
    if n == 0 {
      assert c + Zeros(0) == c;
    } else {
      PadIs(c, m, n - 1);
      var b, e := c + Zeros((n - 1) * ENTRY), Encode(0, []);
      AtEnd(b, e);
      SpliceEntries(b, |b| / ENTRY, e);
      EntryGood(0, []);
      DeadRepresents(Entries(b), m, e);
      ZeroEntry();
      assert c + Zeros(n * ENTRY) == b + e;
    }
  }

  lemma ZeroEntry()
    ensures Encode(0, []) == Zeros(ENTRY)
  {
  }

  lemma DeadRepresents(es: seq<Entry>, m: map<Name, nat>, e: Entry)
    requires Represents(es, m) && !Live(e) && GoodEntry(e)
    ensures Represents(es + [e], m)
  {
    hide NameOf, InumOf;
    forall x | x in m ensures exists k :: 0 <= k < |es + [e]| && Live((es + [e])[k]) && NameOf((es + [e])[k]) == x {
      var k :| 0 <= k < |es| && Live(es[k]) && NameOf(es[k]) == x;
      assert (es + [e])[k] == es[k];
    }
  }

  // ---- how much fits -----------------------------------------------------------------

  // The files mkcofs is asked for, the root as long as its entries.
  ghost function Plan(inputs: seq<Input>): (files: Files)
    ensures forall i :: i in files <==> 1 <= i <= |inputs| + 1
    ensures |files[ROOT_INODE]| == ENTRY * (|inputs| + 2)
    ensures forall j :: 0 <= j < |inputs| ==> files[j + 2] == inputs[j].data
  {
    PlanInputs(inputs)[ROOT_INODE := Zeros(ENTRY * (|inputs| + 2))]
  }

  ghost function PlanInputs(inputs: seq<Input>): (files: Files)
    ensures forall i :: i in files <==> 2 <= i <= |inputs| + 1
    ensures forall j :: 0 <= j < |inputs| ==> files[j + 2] == inputs[j].data
  {
    if inputs == [] then map[]
    else
      var k := |inputs| - 1;
      PlanInputs(inputs[..k])[k + 2 := inputs[k].data]
  }

  lemma WithinPlan(files: Files, inputs: seq<Input>, x: Input)
    requires forall i :: i in files ==> 1 <= i <= |inputs| + 2
    requires ROOT_INODE in files ==> |files[ROOT_INODE]| <= ENTRY * (|inputs| + 3)
    requires forall j :: 0 <= j < |inputs| && j + 2 in files ==> files[j + 2] == inputs[j].data
    requires |inputs| + 2 in files ==> |files[|inputs| + 2]| <= |x.data|
    ensures Within(files, Plan(inputs + [x]))
  {
    hide Plan;
    var all, plan := inputs + [x], Plan(inputs + [x]);
    forall i | i in files ensures i in plan && |files[i]| <= |plan[i]| {
      if i > ROOT_INODE {
        var j := i - 2;
        assert plan[j + 2] == all[j].data;
        assert j < |inputs| ==> files[j + 2] == inputs[j].data;
      }
    }
  }

  // Data blocks that mkcofs can hand out and mark: those on the device, of one bitmap block.
  function ImageRoom(g: Geometry): int {
    Min(g.size, BITS) - g.meta
  }

  ghost predicate Within(files: Files, plan: Files) {
    forall i :: i in files ==> i in plan && |files[i]| <= |plan[i]|
  }

  ghost predicate TooMuch(g: Geometry, files: Files) {
    Demand(files) > ImageRoom(g)
  }

  lemma TooMuchGrows(g: Geometry, files: Files, plan: Files)
    requires TooMuch(g, files) && Within(files, plan)
    ensures TooMuch(g, plan)
  {
    hide Demand;
    DemandMono(files, plan);
  }

  lemma PlanExceeded(g: Geometry, files: Files, inputs: seq<Input>, x: Input)
    requires forall i :: i in files ==> 1 <= i <= |inputs| + 2
    requires ROOT_INODE in files ==> |files[ROOT_INODE]| <= ENTRY * (|inputs| + 3)
    requires forall j :: 0 <= j < |inputs| && j + 2 in files ==> files[j + 2] == inputs[j].data
    requires |inputs| + 2 in files ==> |files[|inputs| + 2]| <= |x.data|
    requires TooMuch(g, files)
    ensures TooMuch(g, Plan(inputs + [x]))
  {
    hide Plan, TooMuch, Within;
    WithinPlan(files, inputs, x);
    TooMuchGrows(g, files, Plan(inputs + [x]));
  }

  lemma RootExceeded(g: Geometry, files: Files)
    requires (forall i :: i in files <==> i == ROOT_INODE) && |files[ROOT_INODE]| <= 2 * ENTRY && TooMuch(g, files)
    ensures TooMuch(g, Plan([]))
  {
    hide TooMuch;
    assert Within(files, Plan([]));
    TooMuchGrows(g, files, Plan([]));
  }

  /** The blocks handed out are those from the first data block to the counter. */
  lemma HandedOut(img: Image)
    requires img.Valid()
    ensures |img.owner| == img.freeBlock - img.g.meta && forall b :: b in img.owner ==> b < img.freeBlock
  {
    hide Ptr, PointersOwn, Agree, Range, Used;
    var all := Range(img.g.meta, img.freeBlock);
    RangeCount(img.g.meta, img.freeBlock);
    assert img.owner.Keys == all;
    assert |img.owner| == |img.owner.Keys|;
  }

  // ---- building -----------------------------------------------------------------------

  // Every file has exactly the blocks it needs, and nothing but zeros after its end.
  ghost predicate Tidy(disk: Disk, nodes: map<nat, Inode>) {
    AllDense(disk, nodes) && forall i :: i in nodes ==> ZeroTail(disk, nodes[i])
  }

  lemma TidyNext(d0: Disk, n0: map<nat, Inode>, d1: Disk, n1: map<nat, Inode>, ino: nat)
    requires Tidy(d0, n0) && ino in n0 && OthersKept(d0, n0, d1, n1, ino)
    requires forall i :: i in n1 && i != ino ==> SameFile(d0, n0[i], d1, n1[i])
    requires Dense(d1, n1[ino], Blocks(n1[ino].size)) && ZeroTail(d1, n1[ino])
    ensures Tidy(d1, n1) && forall i :: i in n1 && i != ino ==> Content(d1, n1[i]) == Content(d0, n0[i])
  {
    hide Ptr, Dense, ByteAt;
    forall i | i in n1 && i != ino
      ensures Dense(d1, n1[i], Blocks(n1[i].size)) && ZeroTail(d1, n1[i]) && Content(d1, n1[i]) == Content(d0, n0[i])
    {
      assert SameFile(d0, n0[i], d1, n1[i]) && SamePtrs(d0, n0[i], d1, n1[i]);
      DenseKept(d0, n0[i], d1, n1[i], Blocks(n0[i].size));
    }
  }

  ghost function At(img: Image, ino: nat): seq<byte>
    reads img
    requires ino in img.nodes
  {
    Content(img.marked, img.nodes[ino])
  }

  // All files as they are.
  ghost function Now(img: Image): (files: Files)
    reads img
    ensures files.Keys == img.nodes.Keys && forall i :: i in files ==> files[i] == At(img, i)
  {
    View(img.marked, img.nodes)
  }

  ghost predicate Good(img: Image)
    reads img
  {
    img.Valid() && Tidy(img.marked, img.nodes)
  }

  method AppendTo(img: Image, ino: nat, data: seq<byte>) returns (r: Mkcofs.Outcome)
    requires Good(img) && ino in img.nodes
    modifies img
    ensures img.nodes.Keys == old(img.nodes.Keys) && img.freeInode == old(img.freeInode)
    ensures r.Done? ==>
              && Good(img) && At(img, ino) == old(At(img, ino)) + data
              && forall i :: i in img.nodes && i != ino ==> At(img, i) == old(At(img, i))
    ensures r.Exited? ==> TooMuch(img.g, old(Now(img))[ino := old(At(img, ino)) + data])
  {
    hide Inv, Dense, ZeroTail, SameFile, OthersKept, Content, Agree, Short, TooMuch;
    ghost var files := Now(img)[ino := At(img, ino) + data];
    r := img.Append(ino, data);
    if r.Done? {
      TidyNext(old(img.marked), old(img.nodes), img.marked, img.nodes, ino);
    } else {
      StepView(old(img.marked), old(img.nodes), img.marked, img.nodes, ino);
      NoRoom(img, ino, files, r);
    }
  }

  // An image that ran out of sectors, or a file past the largest size, is asked for too much.
  lemma NoRoom(img: Image, ino: nat, files: Files, r: Mkcofs.Outcome)
    requires img.Valid() && ino in img.nodes && files.Keys == img.nodes.Keys && r.Exited?
    requires forall i :: i in img.nodes && i != ino ==>
               |files[i]| == img.nodes[i].size && Dense(img.marked, img.nodes[i], Blocks(img.nodes[i].size))
    requires || (r.why == NoSectors && img.freeBlock == img.g.size && Short(img.marked, img.nodes[ino], Blocks(|files[ino]|)))
             || |files[ino]| > MAX_BLOCKS * BLOCK_SIZE
    ensures TooMuch(img.g, files)
  {
    hide Inv, Dense, Agree, Short, Demand;
    if |files[ino]| > MAX_BLOCKS * BLOCK_SIZE {
      DemandOne(files, ino);
      assert Blocks(|files[ino]|) > MAX_BLOCKS;
    } else {
      HandedOut(img);
      ShortCount(img.g, img.marked, img.nodes, img.owner, ino, files, Blocks(|files[ino]|));
    }
  }

  // The contents of an input, a buffer at a time.
  method AppendAll(img: Image, ino: nat, data: seq<byte>) returns (r: Mkcofs.Outcome)
    requires Good(img) && ino in img.nodes
    modifies img
    ensures img.nodes.Keys == old(img.nodes.Keys) && img.freeInode == old(img.freeInode)
    ensures r.Done? ==>
              && Good(img) && At(img, ino) == old(At(img, ino)) + data
              && forall i :: i in img.nodes && i != ino ==> At(img, i) == old(At(img, i))
    ensures r.Exited? ==> TooMuch(img.g, old(Now(img))[ino := old(At(img, ino)) + data])
  {
    hide Good, At, TooMuch, Now;
    r := Done;
    var p := 0;
    while p < |data|
      invariant 0 <= p <= |data| && Good(img) && r.Done?
      invariant img.nodes.Keys == old(img.nodes.Keys) && img.freeInode == old(img.freeInode)
      invariant At(img, ino) == old(At(img, ino)) + data[..p]
      invariant forall i :: i in img.nodes && i != ino ==> At(img, i) == old(At(img, i))
    {
      var numBytes := Min(BLOCK_SIZE, |data| - p);
      ghost var now := Now(img);
      r := AppendTo(img, ino, data[p..p + numBytes]);
      if r.Exited? {
        TooMuchGrows(img.g, now[ino := old(At(img, ino)) + data[..p] + data[p..p + numBytes]],
                     old(Now(img))[ino := old(At(img, ino)) + data]);
        return;
      }
      assert data[..p + numBytes] == data[..p] + data[p..p + numBytes];
      p := p + numBytes;
    }
    assert data[..p] == data;
  }

  method NewInode(img: Image) returns (inum: nat)
    requires Good(img)
    modifies img
    ensures Good(img) && inum == old(img.freeInode) && img.freeInode == inum + 1
    ensures img.nodes.Keys == old(img.nodes.Keys) + {inum} && inum !in old(img.nodes) && At(img, inum) == []
    ensures forall i :: i in old(img.nodes) ==> At(img, i) == old(At(img, i))
  {
    hide Inv, Dense, ZeroTail, Agree;
    inum := img.InodeAlloc();
  }

  // The image after the root's first two entries and the first k inputs.
  ghost predicate Filled(img: Image, inputs: seq<Input>)
    reads img
  {
    var k := |inputs|;
    && Good(img) && img.freeInode == k + 2
    && (forall i :: i in img.nodes <==> 1 <= i <= k + 1)
    && |At(img, ROOT_INODE)| == ENTRY * (k + 2)
    && (ProperInputs(inputs) ==> IsDirectory(At(img, ROOT_INODE), Names(inputs)))
    && (forall j :: 0 <= j < k ==> At(img, j + 2) == inputs[j].data)
  }

  method AddInput(img: Image, ghost inputs: seq<Input>, x: Input) returns (r: Mkcofs.Outcome)
    requires Filled(img, inputs) && |inputs| + 3 < WORD_LIMIT
    modifies img
    ensures r.Done? ==> Filled(img, inputs + [x])
    ensures r.Exited? ==> TooMuch(img.g, Plan(inputs + [x]))
  {
    hide Good, IsDirectory, At, Names, ProperInputs, TooMuch, Plan, Now;
    var inum;
    r, inum := AddName(img, inputs, x);
    if r.Exited? {
      return;
    }
    ghost var n2 := Now(img);
    r := AppendAll(img, inum, x.data);
    if r.Exited? {
      PlanExceeded(img.g, n2[inum := [] + x.data], inputs, x);
      return;
    }
    assert [] + x.data == x.data;
  }

  // A new inode, and its entry in the root directory.
  method AddName(img: Image, ghost inputs: seq<Input>, x: Input) returns (r: Mkcofs.Outcome, inum: nat)
    requires Filled(img, inputs) && |inputs| + 3 < WORD_LIMIT
    modifies img
    ensures r.Done? ==> Named(img, inputs, x) && inum == |inputs| + 2
    ensures r.Exited? ==> TooMuch(img.g, Plan(inputs + [x]))
  {
    hide Good, IsDirectory, At, Names, ProperInputs, Encode, TooMuch, Plan, Now;
    ghost var c := At(img, ROOT_INODE);
    NextNames(c, inputs, x);
    inum := NewInode(img);
    ghost var n1 := Now(img);
    r := AppendTo(img, ROOT_INODE, Encode(inum, x.name));
    if r.Exited? {
      PlanExceeded(img.g, n1[ROOT_INODE := c + Encode(inum, x.name)], inputs, x);
    }
  }

  // The root names x already, whose file is still empty.
  ghost predicate Named(img: Image, inputs: seq<Input>, x: Input)
    reads img
  {
    var k := |inputs|;
    && Good(img) && img.freeInode == k + 3
    && (forall i :: i in img.nodes <==> 1 <= i <= k + 2)
    && |At(img, ROOT_INODE)| == ENTRY * (k + 3)
    && (ProperInputs(inputs + [x]) ==> IsDirectory(At(img, ROOT_INODE), Names(inputs + [x])))
    && (forall j :: 0 <= j < k ==> At(img, j + 2) == inputs[j].data)
    && At(img, k + 2) == []
  }

  lemma NextNames(c: seq<byte>, inputs: seq<Input>, x: Input)
    requires ProperInputs(inputs) ==> IsDirectory(c, Names(inputs))
    requires |inputs| + 3 < WORD_LIMIT
    ensures ProperInputs(inputs + [x]) ==> IsDirectory(c + Encode(|inputs| + 2, x.name), Names(inputs + [x]))
    ensures |Encode(|inputs| + 2, x.name)| == ENTRY
  {
    hide IsDirectory, Encode;
    var all := inputs + [x];
    if ProperInputs(all) {
      assert all[|inputs|] == x && all[..|inputs|] == inputs;
      forall i | 0 <= i < |inputs| ensures inputs[i] == all[i] {
      }
      assert ProperInputs(inputs);
      NamesIff(inputs, x.name);
      AppendIs(c, Names(inputs), x.name, |inputs| + 2);
    }
  }

  // The root with its first two entries.
  method MakeRoot(size: nat) returns (r: Mkcofs.Outcome, img: Image)
    requires ValidGeometry(Layout(size))
    ensures fresh(img) && img.g == Layout(size)
    ensures r.Done? ==> Filled(img, [])
    ensures r.Exited? ==> TooMuch(Layout(size), Plan([]))
  {
    hide Good, IsDirectory, TooMuch, Plan, Now, At;
    img := new Image(size);
    assert Good(img) by { NothingTidy(img); }
    var root := NewInode(img);
    r := RootEntries(img);
  }

  // The root's entries for itself.
  method RootEntries(img: Image) returns (r: Mkcofs.Outcome)
    requires Good(img) && img.freeInode == 2 && (forall i :: i in img.nodes <==> i == ROOT_INODE) && At(img, ROOT_INODE) == []
    modifies img
    ensures r.Done? ==> Filled(img, [])
    ensures r.Exited? ==> TooMuch(img.g, Plan([]))
  {
    hide Good, IsDirectory, TooMuch, Plan, Now, At, Encode;
    ghost var n1 := Now(img);
    r := AppendTo(img, ROOT_INODE, Encode(ROOT_INODE, DOT));
    if r.Exited? {
      RootExceeded(img.g, n1[ROOT_INODE := [] + Encode(ROOT_INODE, DOT)]);
      return;
    }
    assert [] + Encode(ROOT_INODE, DOT) == Encode(ROOT_INODE, DOT);
    ghost var n2 := Now(img);
    r := AppendTo(img, ROOT_INODE, Encode(ROOT_INODE, DOTDOT));
    if r.Exited? {
      RootExceeded(img.g, n2[ROOT_INODE := Encode(ROOT_INODE, DOT) + Encode(ROOT_INODE, DOTDOT)]);
      return;
    }
    RootIs();
  }

  lemma NothingTidy(img: Image)
    requires img.Valid() && img.nodes == map[]
    ensures Good(img)
  {
  }

  lemma RootIs()
    ensures IsDirectory(Encode(ROOT_INODE, DOT) + Encode(ROOT_INODE, DOTDOT), Names([]))
  {
    hide IsDirectory, Encode;
    assert IsDirectory([], map[]) by { EmptyDirectory(); }
    AppendIs([], map[], DOT, ROOT_INODE);
    assert [] + Encode(ROOT_INODE, DOT) == Encode(ROOT_INODE, DOT);
    AppendIs(Encode(ROOT_INODE, DOT), map[DOT := ROOT_INODE], DOTDOT, ROOT_INODE);
    assert map[][DOT := ROOT_INODE][DOTDOT := ROOT_INODE] == Names([]);
  }

  lemma EmptyDirectory()
    ensures IsDirectory([], map[])
  {
  }

  // ---- finishing ------------------------------------------------------------------------

  // A root of the largest size takes more blocks than one bitmap block marks.
  lemma RootFits(img: Image, inputs: seq<Input>)
    requires Filled(img, inputs) && img.freeBlock <= BITS
    ensures img.nodes[ROOT_INODE].size < MAX_BLOCKS * BLOCK_SIZE
  {
    hide Dense, ZeroTail, Agree, IsDirectory, ProperInputs;
    var n := img.nodes[ROOT_INODE];
    assert n.size <= MAX_BLOCKS * BLOCK_SIZE by { SizeBound(img.g, img.marked, img.nodes, img.owner, ROOT_INODE); }
    if n.size == MAX_BLOCKS * BLOCK_SIZE {
      DenseCount(img.g, img.marked, img.nodes, img.owner, ROOT_INODE);
      assert SlotCount(Blocks(n.size)) > MAX_BLOCKS;
      var mine := OwnedBy(img.owner, ROOT_INODE);
      UsedBelowFree(img);
      RangeCount(0, img.freeBlock);
      hide Inv;
      assert mine <= Range(0, img.freeBlock);
      SetCount(mine, Range(0, img.freeBlock));
    }
  }

  lemma UsedBelowFree(img: Image)
    requires img.Valid()
    ensures forall b :: b in img.owner ==> b < img.freeBlock
  {
    hide Ptr, PointersOwn, Agree;
  }

  // What the kernel finds on the finished disk.
  ghost predicate Finished(disk: Disk, nodes: map<nat, Inode>, inputs: seq<Input>) {
    && (forall i :: i in nodes <==> 1 <= i <= |inputs| + 1)
    && (forall j :: 0 <= j < |inputs| ==> Content(disk, nodes[j + 2]) == inputs[j].data)
    && (ProperInputs(inputs) ==> IsDirectory(Content(disk, nodes[ROOT_INODE]), Names(inputs)))
  }

  // The blocks handed out are what the plan calls for.
  lemma PlanMet(img: Image, inputs: seq<Input>)
    requires Filled(img, inputs)
    ensures img.freeBlock - img.g.meta == Demand(Plan(inputs)) && img.freeBlock <= img.g.size
  {
    HandedOut(img);
    hide Inv, Dense, ZeroTail, Agree, IsDirectory, ProperInputs, Names, Content, Plan, Demand;
    Census(img.g, img.marked, img.nodes, img.owner);
    SizesMet(img, inputs);
    hide Tidy, View, AllDense;
    SameSizes(Now(img), Plan(inputs));
  }

  lemma SizesMet(img: Image, inputs: seq<Input>)
    requires Filled(img, inputs)
    ensures Now(img).Keys == Plan(inputs).Keys && forall i :: i in Now(img) ==> |Now(img)[i]| == |Plan(inputs)[i]|
  {
    hide Good, IsDirectory, ProperInputs, Names, Content, Plan, Now, At;
    var files, plan := Now(img), Plan(inputs);
    forall i | i in files ensures i in plan && |files[i]| == |plan[i]| {
      if i > ROOT_INODE {
        var j := i - 2;
        assert plan[j + 2] == inputs[j].data && At(img, j + 2) == inputs[j].data;
      }
    }
  }

  lemma SameSizes(a: Files, b: Files)
    requires a.Keys == b.Keys && forall i :: i in a ==> |a[i]| == |b[i]|
    ensures Demand(a) == Demand(b)
  {
    hide Sum;
    assert Counts(a) == Counts(b);
  }

  // Rounding the root, then the bitmap.
  method Seal(img: Image, ghost inputs: seq<Input>) returns (r: Mkcofs.Outcome)
    requires Filled(img, inputs) && img.freeBlock <= BITS
    modifies img`nodes, img`disk
    ensures r.Done?
    ensures Inv(img.g, img.disk, img.nodes, img.owner) && Finished(img.disk, img.nodes, inputs)
    ensures AllDense(img.disk, img.nodes) <==> (|inputs| + 2) % 16 != 0
  {
    hide Inv, Dense, ZeroTail, Agree, IsDirectory, ProperInputs, Names, Content, Used, SamePtrs;
    RootFits(img, inputs);
    ghost var k, m0, n0 := |inputs|, img.marked, img.nodes;
    RoundedFacts(k);
    if ProperInputs(inputs) {
      PadIs(At(img, ROOT_INODE), Names(inputs), (Rounded(ENTRY * (k + 2)) - ENTRY * (k + 2)) / ENTRY);
    }
    img.RoundRoot();
    r := img.WriteBitmap();
    DenseOnDisk(m0, n0, img.disk, img.nodes);
  }

  /** The last steps. They fail exactly when more blocks were used than one bitmap block marks, which is when the plan asks
      for more than fits; otherwise the image has the ownership invariant, the inputs and the root, all on the device, and
      the root has all its blocks exactly when its entries did not fill whole blocks. */
  method Finish(img: Image, ghost inputs: seq<Input>) returns (r: Mkcofs.Outcome)
    requires Filled(img, inputs)
    modifies img`nodes, img`disk
    ensures r.Done? <==> img.freeBlock <= BITS
    ensures r.Done? <==> !TooMuch(img.g, Plan(inputs))
    ensures r.Done? ==>
              && Inv(img.g, img.disk, img.nodes, img.owner) && Finished(img.disk, img.nodes, inputs)
              && OnDevice(img.g, img.owner)
              && (AllDense(img.disk, img.nodes) <==> (|inputs| + 2) % 16 != 0)
  {
    PlanMet(img, inputs);
    assert OnDevice(img.g, img.owner) by { HandedOut(img); }
    hide Filled, Inv, Finished, AllDense, Demand, Plan, OnDevice;
    if img.freeBlock > BITS {
      return Exited(BitmapFull);
    }
    r := Seal(img, inputs);
  }

  lemma RoundedFacts(k: nat)
    ensures var z := ENTRY * (k + 2);
            && (z < MAX_BLOCKS * BLOCK_SIZE ==> Rounded(z) <= MAX_BLOCKS * BLOCK_SIZE)
            && Rounded(z) > z && (Rounded(z) - z) / ENTRY * ENTRY == Rounded(z) - z
            && (z % BLOCK_SIZE != 0 <==> (k + 2) % 16 != 0)
  {
    var n := k + 2;
    var q, t := n / 16, n % 16;
    assert n == 16 * q + t;
    var z := ENTRY * n;
    assert z == BLOCK_SIZE * q + ENTRY * t;
    assert z / BLOCK_SIZE == q && z % BLOCK_SIZE == ENTRY * t by { QuotientIs(q, ENTRY * t); }
    assert Rounded(z) - z == ENTRY * (16 - t);
  }

  lemma QuotientIs(q: nat, t: nat)
    requires t < BLOCK_SIZE
    ensures (BLOCK_SIZE * q + t) / BLOCK_SIZE == q && (BLOCK_SIZE * q + t) % BLOCK_SIZE == t
  {
  }

  // Only the root's size changed: the other files stay dense.
  lemma DenseOnDisk(m0: Disk, n0: map<nat, Inode>, d1: Disk, n1: map<nat, Inode>)
    requires AllDense(m0, n0) && n1.Keys == n0.Keys && ROOT_INODE in n1
    requires forall i :: i in n1 ==> SamePtrs(m0, n1[i], d1, n1[i])
    requires forall i :: i in n1 && i != ROOT_INODE ==> n1[i] == n0[i]
    ensures AllDense(d1, n1) <==> Dense(m0, n1[ROOT_INODE], Blocks(n1[ROOT_INODE].size))
  {
    hide Ptr, Dense;
    forall i | i in n1 ensures Dense(d1, n1[i], Blocks(n1[i].size)) <==> Dense(m0, n1[i], Blocks(n1[i].size)) {
      if Dense(m0, n1[i], Blocks(n1[i].size)) {
        DenseKept(m0, n1[i], d1, n1[i], Blocks(n1[i].size));
      } else if Dense(d1, n1[i], Blocks(n1[i].size)) {
        SamePtrsBack(m0, n1[i], d1);
        DenseKept(d1, n1[i], m0, n1[i], Blocks(n1[i].size));
      }
    }
  }

  lemma SamePtrsBack(d0: Disk, n: Inode, d1: Disk)
    requires SamePtrs(d0, n, d1, n)
    ensures SamePtrs(d1, n, d0, n)
  {
    hide Ptr;
  }

  lemma PlanGrows(some: seq<Input>, inputs: seq<Input>)
    requires some <= inputs
    ensures Demand(Plan(some)) <= Demand(Plan(inputs))
  {
    hide Demand, Plan;
    var a, b := Plan(some), Plan(inputs);
    forall i | i in a ensures i in b && |a[i]| <= |b[i]| {
      if i > ROOT_INODE {
        var j := i - 2;
        assert a[j + 2] == some[j].data && b[j + 2] == inputs[j].data && some[j] == inputs[j];
      }
    }
    DemandMono(a, b);
  }

  /** mkcofs and the mount: the kernel starts with a file for every input and, names permitting, the root that binds
      them, ready for any run of file and directory operations, exactly when the entries do not fill whole blocks. */
  method MakeAndMount(size: nat, inputs: seq<Input>) returns (r: Mkcofs.Outcome, fs: FileSystem?, ghost t: Tree)
    requires ValidGeometry(Layout(size)) && |inputs| + 3 < WORD_LIMIT
    ensures r.Done? <==> Demand(Plan(inputs)) <= ImageRoom(Layout(size))
    ensures r.Done? ==>
              && fs != null && fs.Valid() && fs.g == Layout(size) && Finished(fs.disk, fs.nodes, inputs)
              && t == Tree(View(fs.disk, fs.nodes), map[ROOT_INODE := Names(inputs)])
              && (ProperInputs(inputs) ==> (Holds(fs, t) <==> (|inputs| + 2) % 16 != 0))
              && (ProperInputs(inputs) ==> Binds(t, inputs))
  {
    hide Inv, Filled, AllDense, Names, ProperInputs, IsDirectory, Plan, Demand, OnDevice;
    fs, t := null, Tree(map[], map[]);
    var img;
    r, img := MakeRoot(size);
    PlanGrows([], inputs);
    if r.Exited? {
      return;
    }
    var k := 0;
    assert inputs[..0] == [];
    while k < |inputs|
      invariant 0 <= k <= |inputs| && Filled(img, inputs[..k]) && img.g == Layout(size) && r.Done?
    {
      assert inputs[..k + 1] == inputs[..k] + [inputs[k]];
      PlanGrows(inputs[..k + 1], inputs);
      r := AddInput(img, inputs[..k], inputs[k]);
      if r.Exited? {
        return;
      }
      k := k + 1;
    }
    assert inputs[..k] == inputs;
    r := Finish(img, inputs);
    if r.Done? {
      fs := new FileSystem(img.g, img.disk, img.nodes, img.owner);
      t := Tree(View(fs.disk, fs.nodes), map[ROOT_INODE := Names(inputs)]);
      if ProperInputs(inputs) {
        BindsThem(fs.disk, fs.nodes, inputs);
      }
    }
  }

  // In the root, inode 1, "." and ".." are the root, and every input's name is bound to a file with its contents.
  ghost predicate Binds(t: Tree, inputs: seq<Input>) {
    && 1 in t.dirs && [46] in t.dirs[1] && t.dirs[1][[46]] == 1 && [46, 46] in t.dirs[1] && t.dirs[1][[46, 46]] == 1
    && (forall j :: 0 <= j < |inputs| ==>
                      && inputs[j].name in t.dirs[1] && t.dirs[1][inputs[j].name] in t.files
                      && t.files[t.dirs[1][inputs[j].name]] == inputs[j].data)
  }

  lemma BindsThem(disk: Disk, nodes: map<nat, Inode>, inputs: seq<Input>)
    requires Finished(disk, nodes, inputs) && ProperInputs(inputs)
    ensures Binds(Tree(View(disk, nodes), map[ROOT_INODE := Names(inputs)]), inputs)
  {
    NamesAre(inputs);
    hide Names, ProperInputs, IsDirectory, Content;
  }
}
