/**
A disk block: 512 bytes, with the two other views the file system takes of it,
128 little-endian 32-bit words (indirect blocks) and 4096 bits (the free bitmap).
*/
module Block {
  import opened Bits

  type byte = x: int | 0 <= x < 256

  const BLOCK_SIZE := 512
  const WORDS := 128
  const BITS := 4096
  const WORD_LIMIT := 0x1_0000_0000

  function Min(a: nat, b: nat): nat {
    if a < b then a else b
  }

  type Block = b: seq<byte> | |b| == 512 witness seq(512, _ => 0)

  function ZeroBlock(): (b: Block)
    ensures forall i :: 0 <= i < BLOCK_SIZE ==> b[i] == 0
  {
    seq(512, _ => 0)
  }

  // ---- word view -----------------------------------------------------------

  function Word(b: Block, i: nat): (w: nat)
    requires i < WORDS
    ensures w < WORD_LIMIT
  {
    var b0: int, b1: int, b2: int, b3: int := b[4 * i], b[4 * i + 1], b[4 * i + 2], b[4 * i + 3];
    b0 + 0x100 * b1 + 0x1_0000 * b2 + 0x100_0000 * b3
  }

  function WithWord(b: Block, i: nat, w: nat): (r: Block)
    requires i < WORDS && w < WORD_LIMIT
  {
    b[4 * i := w % 0x100]
     [4 * i + 1 := w / 0x100 % 0x100]
     [4 * i + 2 := w / 0x1_0000 % 0x100]
     [4 * i + 3 := w / 0x100_0000]
  }

  lemma WordOfWithWord(b: Block, i: nat, w: nat, j: nat)
    requires i < WORDS && j < WORDS && w < WORD_LIMIT
    ensures Word(WithWord(b, i, w), j) == if j == i then w else Word(b, j)
  {
    assert w / 0x1_0000 == w / 0x100 / 0x100;
    assert w / 0x100_0000 == w / 0x1_0000 / 0x100;
  }

  lemma ZeroWords(i: nat)
    requires i < WORDS
    ensures Word(ZeroBlock(), i) == 0
  {
  }

  // ---- bit view ------------------------------------------------------------

  // Bit k of x: (x & 1 << k) != 0.
  predicate BitOf(x: nat, k: nat)
    decreases k
  {
    if k == 0 then x % 2 == 1 else BitOf(x / 2, k - 1)
  }

  // x | 1 << k when v, x & ~(1 << k) otherwise, for an n-bit x.
  function WithBitOf(n: nat, x: nat, k: nat, v: bool): (r: nat)
    requires k < n && x < Pow2(n)
    ensures r < Pow2(n)
    decreases k
  {
    if k == 0 then x / 2 * 2 + if v then 1 else 0
    else x % 2 + 2 * WithBitOf(n - 1, x / 2, k - 1, v)
  }

  lemma {:induction false} BitOfWithBitOf(n: nat, x: nat, k: nat, v: bool, j: nat)
    requires k < n && x < Pow2(n)
    ensures BitOf(WithBitOf(n, x, k, v), j) == if j == k then v else BitOf(x, j)
    decreases k
  {
    var r := WithBitOf(n, x, k, v);
    if k == 0 {
      assert r / 2 == x / 2;
    } else {
      assert r / 2 == WithBitOf(n - 1, x / 2, k - 1, v);
      if j > 0 {
        BitOfWithBitOf(n - 1, x / 2, k - 1, v, j - 1);
      }
    }
  }

  lemma {:induction false} OnesBit(n: nat, j: nat)
    requires j < n
    ensures BitOf(Pow2(n) - 1, j)
  {
    if j > 0 {
      OnesBit(n - 1, j - 1);
      assert (Pow2(n) - 1) / 2 == Pow2(n - 1) - 1;
    }
  }

  lemma {:induction false} ClearBit(n: nat, x: nat) returns (j: nat)
    requires x < Pow2(n) - 1
    ensures j < n && !BitOf(x, j)
  {
    if x % 2 == 0 {
      j := 0;
    } else {
      j := ClearBit(n - 1, x / 2);
      j := j + 1;
    }
  }

  predicate Bit(b: Block, i: nat)
    requires i < BITS
  {
    BitOf(b[i / 8], i % 8)
  }

  function WithBit(b: Block, i: nat, v: bool): (r: Block)
    requires i < BITS
  {
    Pow2Of8();
    b[i / 8 := WithBitOf(8, b[i / 8], i % 8, v)]
  }

  lemma BitOfWithBit(b: Block, i: nat, v: bool, j: nat)
    requires i < BITS && j < BITS
    ensures Bit(WithBit(b, i, v), j) == if j == i then v else Bit(b, j)
  {
    Pow2Of8();
    BitOfWithBitOf(8, b[i / 8], i % 8, v, j % 8);
  }

  // The word that block_alloc tests to skip 32 bits at a time.
  lemma FullWord(b: Block, i: nat)
    requires i < WORDS
    ensures Word(b, i) == 0xFFFF_FFFF <==> forall k: nat :: 32 * i <= k < 32 * (i + 1) ==> Bit(b, k)
  {
    Pow2Of8();
    if Word(b, i) == 0xFFFF_FFFF {
      forall k: nat | 32 * i <= k < 32 * (i + 1) ensures Bit(b, k) {
        assert k / 8 == 4 * i || k / 8 == 4 * i + 1 || k / 8 == 4 * i + 2 || k / 8 == 4 * i + 3;
        assert b[k / 8] == 255;
        OnesBit(8, k % 8);
      }
    } else {
      var c: nat :| c < 4 && b[4 * i + c] != 255;
      var j := ClearBit(8, b[4 * i + c]);
      var k := 8 * (4 * i + c) + j;
      assert k / 8 == 4 * i + c && k % 8 == j;
      assert !Bit(b, k);
    }
  }

  lemma Pow2Of8()
    ensures Pow2(8) == 256
  {
    assert Pow2(4) == 16;
  }
}
