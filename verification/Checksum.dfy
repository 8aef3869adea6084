/**
The Internet checksum (sections 1 and 2 of RFC 1071): 16-bit little-endian words are
added up in a 32-bit sum, the carries are folded back in, and the result is
complemented.
*/
module Checksum {
  import opened Block

  const MASK: nat := 0xFFFF
  const HALF: nat := 0x1_0000

  function WordAt(buf: seq<byte>, i: nat): (w: nat)
    requires i + 1 < |buf|
    ensures w <= MASK
  {
    var lo: int, hi: int := buf[i], buf[i + 1];
    lo + 0x100 * hi
  }

  // The words of buf added up, an odd last byte on its own.
  function Sum(buf: seq<byte>): (n: nat)
    ensures n <= MASK * ((|buf| + 1) / 2)
    decreases |buf|
  {
    if |buf| == 0 then 0 else if |buf| == 1 then buf[0] else WordAt(buf, 0) + Sum(buf[2..])
  }

  // The ones'-complement sum of 16-bit numbers that add up to n: zero only for zero.
  function Residue(n: nat): (r: nat)
    ensures r <= MASK
  {
    if n == 0 then 0 else (n - 1) % MASK + 1
  }

  lemma FoldOnce(n: nat)
    requires n >= HALF
    ensures n % HALF + n / HALF < n && Residue(n % HALF + n / HALF) == Residue(n)
  {
    var hi := n / HALF;
    assert n == HALF * hi + n % HALF;
    assert n - (n % HALF + hi) == MASK * hi;
    SameResidue(n % HALF + hi, hi);
  }

  lemma {:induction false} SameResidue(n: nat, k: nat)
    requires n > 0
    ensures Residue(n + MASK * k) == Residue(n)
  {
    if k > 0 {
      SameResidue(n, k - 1);
      assert (n + MASK * (k - 1) - 1 + MASK) % MASK == (n + MASK * (k - 1) - 1) % MASK;
    }
  }

  lemma ResidueSmall(n: nat)
    requires n < HALF
    ensures Residue(n) == n
  {
  }

  // Up to 65537 words the sum fits 32 bits.
  lemma SumFits(buf: seq<byte>)
    requires (|buf| + 1) / 2 <= 65537
    ensures Sum(buf) < WORD_LIMIT
  {
  }

  // Residues agree only for numbers that differ by a multiple of 65535.
  lemma ResidueApart(n: nat, k: nat)
    requires 0 < k < MASK
    ensures Residue(n + k) != Residue(n)
  {
    if n > 0 {
      var q, r := (n - 1) / MASK, (n - 1) % MASK;
      assert n + k - 1 == MASK * q + (r + k);
      if r + k < MASK {
        assert (n + k - 1) % MASK == r + k;
      } else {
        assert n + k - 1 == MASK * (q + 1) + (r + k - MASK);
        assert (n + k - 1) % MASK == r + k - MASK;
      }
    }
  }

  /** A 32-bit sum that overflowed q times has lost q carries, since 2^32 is 1 more than a multiple of 65535; for fewer
      than 65535 of them that always shows. */
  lemma WrapIff(n: nat)
    requires n / WORD_LIMIT < MASK
    ensures Residue(n % WORD_LIMIT) == Residue(n) <==> n < WORD_LIMIT
  {
    hide Residue;
    var q, r := n / WORD_LIMIT, n % WORD_LIMIT;
    assert n == WORD_LIMIT * q + r;
    if q > 0 {
      assert n == (r + q) + MASK * (65537 * q);
      SameResidue(r + q, 65537 * q);
      ResidueApart(r, q);
    }
  }

  /** For every length a C int can hold, the sum has the right residue exactly when it does not overflow. */
  lemma OverflowIff(buf: seq<byte>)
    requires |buf| < 0x8000_0000
    ensures Residue(Sum(buf) % WORD_LIMIT) == Residue(Sum(buf)) <==> Sum(buf) < WORD_LIMIT
  {
    hide Residue, Sum;
    assert Sum(buf) <= MASK * 0x4000_0000;
    WrapIff(Sum(buf));
  }

  lemma WrapAdd(a: nat, b: nat)
    ensures (a % WORD_LIMIT + b) % WORD_LIMIT == (a + b) % WORD_LIMIT
  {
    var q := a / WORD_LIMIT;
    assert a + b == WORD_LIMIT * q + (a % WORD_LIMIT + b);
  }

  method AddUp(buf: seq<byte>) returns (sum: nat)
    ensures sum == Sum(buf) % WORD_LIMIT
  {
    hide Sum, WordAt;
    sum := 0;
    var at, len := 0, |buf|;
    ghost var total: nat := 0;
    while len > 1
      invariant 0 <= len && at + len == |buf| && total + Sum(buf[at..]) == Sum(buf) && sum == total % WORD_LIMIT
    {
      SumStep(buf, at);
      WrapAdd(total, WordAt(buf, at));
      sum := (sum + WordAt(buf, at)) % WORD_LIMIT;
      total := total + WordAt(buf, at);
      at := at + 2;
      len := len - 2;
    }
    SumEnd(buf[at..]);
    if len > 0 {
      WrapAdd(total, buf[at]);
      sum := (sum + buf[at]) % WORD_LIMIT;
    }
  }

  lemma SumEnd(buf: seq<byte>)
    requires |buf| <= 1
    ensures Sum(buf) == if |buf| == 0 then 0 else buf[0]
  {
  }

  method Fold(n: nat) returns (sum: nat)
    ensures sum == Residue(n)
  {
    hide Residue;
    sum := n;
    while sum / HALF != 0
      invariant Residue(sum) == Residue(n)
      decreases sum
    {
      FoldOnce(sum);
      sum := sum % HALF + sum / HALF;
    }
    ResidueSmall(sum);
  }

  /** Folding ends with the ones'-complement sum of the 32-bit sum. That is the sum of the words exactly when the 32 bits
      do not overflow, and always so for up to 65537 words. */
  method IpCsum(buf: seq<byte>) returns (csum: nat)
    ensures csum == MASK - Residue(Sum(buf) % WORD_LIMIT)
    ensures (|buf| + 1) / 2 <= 65537 ==> csum == MASK - Residue(Sum(buf))
    ensures |buf| < 0x8000_0000 ==> (csum == MASK - Residue(Sum(buf)) <==> Sum(buf) < WORD_LIMIT)
  {
    hide Sum, Residue;
    var sum := AddUp(buf);
    sum := Fold(sum);
    csum := MASK - sum;
    if (|buf| + 1) / 2 <= 65537 {
      SumFits(buf);
    }
    if |buf| < 0x8000_0000 {
      OverflowIff(buf);
    }
  }

  function Ones(n: nat): (s: seq<byte>)
    ensures |s| == n
  {
    seq(n, i => 255)
  }

  lemma {:induction false} SumOnes(n: nat)
    ensures Sum(Ones(2 * n)) == MASK * n
  {
    if n > 0 {
      assert Ones(2 * n)[2..] == Ones(2 * n - 2);
      SumOnes(n - 1);
    }
  }

  /** One word more than 65537 and the sum can overflow: for n words of ones, it is wrong from there on. */
  lemma OverflowBeyond(n: nat)
    requires 2 * n < 0x8000_0000
    ensures var s := Sum(Ones(2 * n)); Residue(s % WORD_LIMIT) == Residue(s) <==> n <= 65537
  {
    hide Sum, Ones, Residue;
    SumOnes(n);
    OverflowIff(Ones(2 * n));
  }

  lemma SumStep(buf: seq<byte>, at: nat)
    requires at + 1 < |buf|
    ensures Sum(buf[at..]) == WordAt(buf, at) + Sum(buf[at + 2..])
  {
    assert buf[at..][2..] == buf[at + 2..];
  }

  // ---- storing the checksum ------------------------------------------------------------

  function Stored(buf: seq<byte>, at: nat, w: nat): (r: seq<byte>)
    requires at + 1 < |buf| && w <= MASK
    ensures |r| == |buf|
  {
    buf[at := w % 0x100][at + 1 := w / 0x100]
  }

  lemma {:induction false} SumStored(buf: seq<byte>, at: nat, w: nat)
    requires at + 1 < |buf| && at % 2 == 0 && WordAt(buf, at) == 0 && w <= MASK
    ensures Sum(Stored(buf, at, w)) == Sum(buf) + w
    decreases at
  {
    var s := Stored(buf, at, w);
    if at == 0 {
      assert s[2..] == buf[2..];
    } else {
      SumStored(buf[2..], at - 2, w);
      assert s[2..] == Stored(buf[2..], at - 2, w);
      assert WordAt(s, 0) == WordAt(buf, 0);
    }
  }

  lemma Complement(n: nat)
    ensures Residue(n + (MASK - Residue(n))) == MASK
  {
    if n > 0 {
      var q := (n - 1) / MASK;
      assert n == MASK * q + Residue(n);
      assert n + (MASK - Residue(n)) == MASK + MASK * q;
      SameResidue(MASK, q);
    }
  }

  /** A checksum stored in a zeroed aligned field makes the checksum of the whole zero; any other value that is not
      congruent to it does not. */
  lemma StoredIff(buf: seq<byte>, at: nat, w: nat)
    requires at + 1 < |buf| && at % 2 == 0 && WordAt(buf, at) == 0 && w <= MASK
    ensures MASK - Residue(Sum(Stored(buf, at, w))) == 0 <==> Sum(buf) + w > 0 && (Sum(buf) + w) % MASK == 0
    ensures w == MASK - Residue(Sum(buf)) ==> MASK - Residue(Sum(Stored(buf, at, w))) == 0
  {
    hide Sum, Residue, Stored, WordAt;
    SumStored(buf, at, w);
    Complement(Sum(buf));
    ResidueFull(Sum(buf) + w);
  }

  lemma ResidueFull(n: nat)
    ensures Residue(n) == MASK <==> n > 0 && n % MASK == 0
  {
  }

  // A 32-bit number and its checksum add up to a multiple of 65535, and 2^32 - 1 is the last one below 2^32.
  lemma ChecksumFits(low: nat)
    requires low < WORD_LIMIT
    ensures low + (MASK - Residue(low)) < WORD_LIMIT
  {
    if low > 0 {
      var q, r := (low - 1) / MASK, (low - 1) % MASK;
      assert low - 1 == MASK * q + r;
      assert q <= 65536;
      assert low + (MASK - Residue(low)) == MASK * (q + 1);
    }
  }

  /** Whatever carries the 32-bit sum lost, a checksum made from it checks to zero: the receiver loses the same ones, and
      the stored checksum brings no further one. */
  lemma StoredChecks(buf: seq<byte>, at: nat)
    requires at + 1 < |buf| && at % 2 == 0 && WordAt(buf, at) == 0
    ensures Residue(Sum(Stored(buf, at, MASK - Residue(Sum(buf) % WORD_LIMIT))) % WORD_LIMIT) == MASK
  {
    hide Sum, Residue, Stored, WordAt;
    var low := Sum(buf) % WORD_LIMIT;
    var w := MASK - Residue(low);
    SumStored(buf, at, w);
    WrapAdd(Sum(buf), w);
    ChecksumFits(low);
    Complement(low);
  }

  /** As the IP header is sent: the checksum over the zeroed field, stored, then checked by the receiver. The check is
      zero for every header, whether or not the sums overflow. */
  method SendAndCheck(header: seq<byte>, at: nat) returns (packet: seq<byte>, check: nat)
    requires at + 1 < |header| && at % 2 == 0 && WordAt(header, at) == 0
    ensures packet == Stored(header, at, MASK - Residue(Sum(header) % WORD_LIMIT))
    ensures check == 0
  {
    hide Sum, Residue, Stored, WordAt;
    var csum := IpCsum(header);
    packet := Stored(header, at, csum);
    StoredChecks(header, at);
    check := IpCsum(packet);
  }

  // ---- what the checksum sees ------------------------------------------------------------

  /** Every byte counts: one at an even place once, one at an odd place 256 times. */
  lemma {:induction false} SumByte(buf: seq<byte>, i: nat, v: byte)
    requires i < |buf|
    ensures i % 2 == 0 ==> Sum(buf[i := v]) + (buf[i] as int) == Sum(buf) + (v as int)
    ensures i % 2 == 1 ==> Sum(buf[i := v]) + 256 * (buf[i] as int) == Sum(buf) + 256 * (v as int)
    decreases |buf|
  {
    hide Sum, WordAt;
    var buf' := buf[i := v];
    if i >= 2 {
      SumByte(buf[2..], i - 2, v);
      assert buf'[2..] == buf[2..][i - 2 := v];
      SumTail(buf);
      SumTail(buf');
      assert WordAt(buf', 0) == WordAt(buf, 0) by { SameWord(buf, i, v); }
    } else {
      SumHead(buf, i, v);
    }
  }

  lemma SumHead(buf: seq<byte>, i: nat, v: byte)
    requires i < |buf| && i < 2
    ensures i == 0 ==> Sum(buf[i := v]) + (buf[i] as int) == Sum(buf) + (v as int)
    ensures i == 1 ==> Sum(buf[i := v]) + 256 * (buf[i] as int) == Sum(buf) + 256 * (v as int)
  {
    var buf' := buf[i := v];
    if |buf| == 1 {
      SumEnd(buf);
      SumEnd(buf');
    } else {
      assert buf'[2..] == buf[2..];
      SumTail(buf);
      SumTail(buf');
    }
    hide Sum;
  }

  lemma SumTail(buf: seq<byte>)
    requires |buf| >= 2
    ensures Sum(buf) == WordAt(buf, 0) + Sum(buf[2..])
  {
  }

  lemma SameWord(buf: seq<byte>, i: nat, v: byte)
    requires 2 <= i < |buf|
    ensures WordAt(buf[i := v], 0) == WordAt(buf, 0)
  {
  }

  lemma {:induction false} SumZeros(n: nat)
    ensures Sum(seq(n, _ => 0)) == 0
    decreases n
  {
    if n >= 2 {
      assert seq(n, _ => 0)[2..] == seq(n - 2, _ => 0 as byte);
      SumZeros(n - 2);
    }
  }

  lemma SumMoves(buf: seq<byte>, i: nat, v: byte)
    requires i < |buf| && v != buf[i]
    ensures Sum(buf[i := v]) != Sum(buf) && -65535 < Sum(buf[i := v]) - Sum(buf) < 65535
  {
    SumByte(buf, i, v);
    hide Sum;
  }

  // Sums with the same residue differ by a multiple of 65535.
  lemma ResiduesApart(a: nat, b: nat)
    requires a != b && -65535 < b - a < 65535
    ensures Residue(a) != Residue(b)
  {
  }

  /** Any one byte changed changes the checksum of up to 65537 words. */
  lemma ByteDetected(buf: seq<byte>, i: nat, v: byte)
    requires i < |buf| && v != buf[i] && (|buf| + 1) / 2 <= 65537
    ensures Residue(Sum(buf[i := v]) % WORD_LIMIT) != Residue(Sum(buf) % WORD_LIMIT)
  {
    hide Sum, Residue;
    SumFits(buf);
    SumFits(buf[i := v]);
    SumMoves(buf, i, v);
    ResiduesApart(Sum(buf), Sum(buf[i := v]));
  }
}
