/**
The disk format of cofs in numbers: where each byte of a file, each bit of the
bitmap and each binding of a directory stands on the disk, and the limits.
*/
module CofsFormat {
  import opened Bits
  import opened Block
  import opened CofsLayout
  import opened Cofs
  import opened CofsDir
  import opened Mkcofs

  // The 32-bit number at an offset, lowest byte first.
  function LittleEndian(b: seq<byte>, at: nat): nat
    requires at + 3 < |b|
  {
    var b0: int, b1: int, b2: int, b3: int := b[at], b[at + 1], b[at + 2], b[at + 3];
    b0 + 256 * b1 + 65536 * b2 + 16777216 * b3
  }

  // The block that word k of an indirect block names; 0 when there is no indirect block.
  function Entry32(disk: Disk, block: nat, k: nat): nat
    requires k < 128
  {
    if 0 < block < |disk| then LittleEndian(disk[block], 4 * k) else 0
  }

  // Disk block of file block f: six direct addresses, then 128 in the block of address 6, then 128 times 128 under address 7.
  function BlockOf(disk: Disk, addrs: seq<nat>, f: nat): nat
    requires |addrs| == 9 && f < 16518
  {
    if f < 6 then addrs[f]
    else if f < 134 then Entry32(disk, addrs[6], f - 6)
    else Entry32(disk, Entry32(disk, addrs[7], (f - 134) / 128), (f - 134) % 128)
  }

  /** Byte i of a file is byte i % 512 of the disk block that its address array leads to for file block i / 512. */
  lemma ByteOnDisk(disk: Disk, n: Inode, i: nat)
    requires |n.addrs| == 9 && i < n.size <= 8457216
    ensures var b := BlockOf(disk, n.addrs, i / 512);
            Content(disk, n)[i] == if 0 < b < |disk| then disk[b][i % 512] else 0
  {
    var f := i / 512;
    assert f < 16518;
    SlotOnDisk(disk, n, f);
  }

  lemma SlotOnDisk(disk: Disk, n: Inode, f: nat)
    requires |n.addrs| == 9 && f < 16518
    ensures Ptr(disk, n, DataSlot(f)) == BlockOf(disk, n.addrs, f)
  {
    forall b: Block, k: nat | k < 128 ensures Word(b, k) == LittleEndian(b, 4 * k) {
    }
    hide Word, LittleEndian;
  }

  /** Block 4096 * q + r is in use exactly when bit r % 8 of byte r / 8 of bitmap block q is set. */
  lemma BitOnDisk(g: Geometry, disk: Disk, b: nat, q: nat, r: nat)
    requires ValidGeometry(g) && |disk| == Capacity(g) && b < Capacity(g) && b == 4096 * q + r && r < 4096
    ensures g.bitmapStart + q < |disk|
    ensures Used(g, disk, b) <==> disk[g.bitmapStart + q][r / 8] / Pow2(r % 8) % 2 == 1
  {
    BitmapIn(g, b);
    assert b / 4096 == q && b % 4096 == r;
    hide ValidGeometry, Capacity, BitOf, Pow2, Bit;
    BitInBlock(disk[g.bitmapStart + q], r);
  }

  lemma BitmapIn(g: Geometry, b: nat)
    requires ValidGeometry(g) && b < Capacity(g)
    ensures g.bitmapStart + b / 4096 < Capacity(g)
  {
    assert b / 4096 < Capacity(g) / BITS;
    assert g.size <= Capacity(g);
  }

  lemma BitInBlock(block: Block, i: nat)
    requires i < 4096
    ensures Bit(block, i) <==> block[i / 8] / Pow2(i % 8) % 2 == 1
  {
    BitIs(block[i / 8], i % 8);
  }

  lemma {:induction false} BitIs(x: nat, k: nat)
    ensures BitOf(x, k) <==> x / Pow2(k) % 2 == 1
    decreases k
  {
    if k > 0 {
      BitIs(x / 2, k - 1);
      HalfThen(x, Pow2(k - 1));
    }
  }

  lemma HalfThen(x: nat, p: nat)
    requires p > 0
    ensures x / 2 / p == x / (2 * p)
  {
    var q, r := x / 2 / p, x / 2 % p;
    assert x / 2 == p * q + r;
    assert x == 2 * p * q + (2 * r + x % 2) by { assert 2 * (p * q) == 2 * p * q; }
    ModIs(x, 2 * p, q, 2 * r + x % 2);
  }

  // Record k of a directory: the inode number, then the name and a zero.
  predicate RecordAt(c: seq<byte>, k: nat, name: Name, inum: nat) {
    && 32 * k + 32 <= |c| && inum != 0 && 0 < |name| < 28 && 0 !in name
    && LittleEndian(c, 32 * k) == inum
    && c[32 * k + 4..32 * k + 4 + |name|] == name && c[32 * k + 4 + |name|] == 0
  }

  /** A name is bound to an inode number exactly when the directory has a 32-byte record of the two. */
  lemma RecordsOnDisk(c: seq<byte>, m: map<Name, nat>, name: Name, inum: nat)
    requires IsDirectory(c, m)
    ensures name in m && m[name] == inum <==> exists k: nat :: RecordAt(c, k, name, inum)
  {
    hide NameOf, InumOf;
    var es := Entries(c);
    forall k: nat | k < |es| ensures RecordAt(c, k, name, inum) <==> Live(es[k]) && NameOf(es[k]) == name && InumOf(es[k]) == inum {
      assert GoodEntry(es[k]);
      RecordIs(c, k, name, inum);
    }
    if name in m && m[name] == inum {
      var k :| 0 <= k < |es| && Live(es[k]) && NameOf(es[k]) == name;
      assert RecordAt(c, k, name, inum);
    }
    if k: nat :| RecordAt(c, k, name, inum) {
      assert k < |es|;
    }
  }

  lemma RecordIs(c: seq<byte>, k: nat, name: Name, inum: nat)
    requires |c| % 32 == 0 && k < |c| / 32 && GoodEntry(Entries(c)[k])
    ensures RecordAt(c, k, name, inum) <==>
              Live(Entries(c)[k]) && NameOf(Entries(c)[k]) == name && InumOf(Entries(c)[k]) == inum
  {
    var e := Entries(c)[k];
    assert e == c[32 * k..32 * k + 32];
    assert InumOf(e) == LittleEndian(c, 32 * k);
    hide InumOf, LittleEndian, Entries;
    var t := e[4..];
    assert forall i :: 0 <= i < 28 ==> t[i] == c[32 * k + 4 + i];
    if RecordAt(c, k, name, inum) {
      assert t[..|name|] == name;
      CStrOfPrefix(t, |name|);
    }
  }

  // Record k is the first with inode number 0, or the place behind the last record.
  ghost predicate FirstZero(c: seq<byte>, k: nat) {
    && 32 * k <= |c| && (32 * k < |c| ==> 32 * k + 32 <= |c| && LittleEndian(c, 32 * k) == 0)
    && forall j: nat :: j < k ==> LittleEndian(c, 32 * j) != 0
  }

  /** A link writes its record over the first one with inode number 0, or behind the last, and no other byte. */
  lemma LinkSlot(c: seq<byte>, m: map<Name, nat>, name: Name, inum: nat, k: nat)
    requires IsDirectory(c, m) && 0 < |name| < 28 && 0 !in name && 0 < inum < 0x1_0000_0000 && FirstZero(c, k)
    ensures var r := Linked(c, name, inum);
            && |r| == (if 32 * k < |c| then |c| else |c| + 32) && RecordAt(r, k, name, inum)
            && forall i :: 0 <= i < |c| && !(32 * k <= i < 32 * k + 32) ==> r[i] == c[i]
  {
    assert |c| % 32 == 0 && 32 * k <= |c|;
    hide IsDirectory;
    DeadPlace(c, k);
    hide FirstZero, FirstDead, Splice, RecordAt, Entries, Encode, Linked;
    SpliceBytes(c, k, Encode(inum, name));
    LinkedSplice(c, name, inum, k);
    LinkedRecord(c, name, inum, k);
  }

  lemma LinkedSplice(c: seq<byte>, name: Name, inum: nat, k: nat)
    requires |c| % 32 == 0 && 32 * k <= |c| && FirstDead(Entries(c)) == k && inum < 0x1_0000_0000
    ensures Linked(c, name, inum) == Splice(c, 32 * k, Encode(inum, name))
  {
    hide FirstDead, Splice, Entries, Encode;
  }

  lemma LinkedRecord(c: seq<byte>, name: Name, inum: nat, k: nat)
    requires |c| % 32 == 0 && 32 * k <= |c| && FirstDead(Entries(c)) == k
    requires 0 < |name| < 28 && 0 !in name && 0 < inum < 0x1_0000_0000
    ensures RecordAt(Linked(c, name, inum), k, name, inum)
  {
    hide Represents, FirstDead, Splice, RecordAt, Entries, Encode, NameOf, InumOf;
    var e, r := Encode(inum, name), Linked(c, name, inum);
    EntryGood(inum, name);
    SpliceEntries(c, k, e);
    assert Entries(r)[k] == e;
    RecordIs(r, k, name, inum);
  }

  lemma DeadPlace(c: seq<byte>, k: nat)
    requires |c| % 32 == 0 && FirstZero(c, k)
    ensures FirstDead(Entries(c)) == k
  {
    hide FirstDead, LittleEndian, InumOf;
    var es := Entries(c);
    var d := FirstDead(es);
    if d < k {
      LiveIff(c, d);
    } else if k < d {
      LiveIff(c, k);
    }
  }

  lemma LiveIff(c: seq<byte>, j: nat)
    requires |c| % 32 == 0 && 32 * j + 32 <= |c|
    ensures Live(Entries(c)[j]) <==> LittleEndian(c, 32 * j) != 0
  {
    assert Entries(c)[j] == c[32 * j..32 * j + 32];
  }

  lemma SpliceBytes(c: seq<byte>, k: nat, e: seq<byte>)
    requires |e| == 32 && 32 * k <= |c| && |c| % 32 == 0
    ensures var r := Splice(c, 32 * k, e);
            && |r| == (if 32 * k < |c| then |c| else |c| + 32)
            && forall i :: 0 <= i < |c| && !(32 * k <= i < 32 * k + 32) ==> r[i] == c[i]
  {
  }

  /** The limits: a write is refused exactly when it starts past the end or would end past byte 8388742, which is short of
      the 8457216 bytes a file has room for. */
  lemma WriteLimit(size: nat, offset: nat, len: nat)
    requires offset + len < 0x1_0000_0000
    ensures Refused(size, offset, len) <==> offset > size || offset + len > 8388742
    ensures MAX_BLOCKS * BLOCK_SIZE == 8457216
  {
  }

  /** mkcofs: the bitmap from block 2, a bit for each block; then 64-byte inodes, one for each 4096 bytes; then the data. */
  lemma LayoutNumbers(size: nat)
    requires size < 0x80_0000
    ensures Layout(size).size == size && Layout(size).bitmapStart == 2
    ensures var bitmap, inodes := size / 4096 + 1, size / 64 + 1; Layout(size).meta == 2 + bitmap + inodes
  {
  }
}
