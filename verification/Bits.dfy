/**
Numbers as bits: the bitwise and, powers of two, and masks.
*/
module Bits {

  function And(a: nat, b: nat): (r: nat)
    ensures r <= a && r <= b
  {
    if a == 0 || b == 0 then 0 else 2 * And(a / 2, b / 2) + if a % 2 == 1 && b % 2 == 1 then 1 else 0
  }

  function Pow2(k: nat): (r: nat)
    ensures r > 0
  {
    if k == 0 then 1 else 2 * Pow2(k - 1)
  }

  lemma {:induction false} MaskedTwice(x: nat, m: nat)
    ensures And(And(x, m), m) == And(x, m)
  {
    if x != 0 && m != 0 {
      MaskedTwice(x / 2, m / 2);
      assert And(x, m) / 2 == And(x / 2, m / 2);
    }
  }

  // A submask keeps at most the bits of the larger mask, so it gives no larger base.
  lemma {:induction false} SubmaskLess(ip: nat, inner: nat, outer: nat)
    requires And(inner, outer) == inner
    ensures And(ip, inner) <= And(ip, outer)
  {
    if ip != 0 && inner != 0 {
      assert inner / 2 == And(inner / 2, outer / 2);
      SubmaskLess(ip / 2, inner / 2, outer / 2);
    }
  }

  lemma {:induction false} Pow2Mono(k: nat, n: nat)
    requires k <= n
    ensures Pow2(k) <= Pow2(n)
  {
    if k < n {
      Pow2Mono(k, n - 1);
    }
  }

  // Of two prefixes of the same width the one with more zeros lies within the other.
  lemma {:induction false} PrefixCovered(total: nat, n: nat, k: nat)
    requires k <= n <= total
    ensures Pow2(k) <= Pow2(n) <= Pow2(total)
    ensures And(Pow2(total) - Pow2(n), Pow2(total) - Pow2(k)) == Pow2(total) - Pow2(n)
  {
    hide And;
    Pow2Mono(k, n);
    Pow2Mono(n, total);
    if k == 0 {
      AndAll(total, Pow2(total) - Pow2(n));
    } else {
      PrefixCovered(total - 1, n - 1, k - 1);
      var a, b := Pow2(total - 1) - Pow2(n - 1), Pow2(total - 1) - Pow2(k - 1);
      AndDouble(a, b);
    }
  }

  lemma AndDouble(a: nat, b: nat)
    ensures And(2 * a, 2 * b) == 2 * And(a, b)
  {
    assert (2 * a) / 2 == a && (2 * b) / 2 == b;
  }

  lemma {:induction false} AndAll(total: nat, x: nat)
    requires x < Pow2(total)
    ensures And(x, Pow2(total) - 1) == x
  {
    if total > 0 && x > 0 {
      AndAll(total - 1, x / 2);
      assert (Pow2(total) - 1) / 2 == Pow2(total - 1) - 1 && (Pow2(total) - 1) % 2 == 1;
    }
  }

  lemma ModDouble(x: nat, p: nat)
    requires p > 0
    ensures x % (2 * p) == 2 * (x / 2 % p) + x % 2
  {
    var y := x / 2;
    var q := y / p;
    assert x == 2 * p * q + (2 * (y % p) + x % 2) by {
      assert y == p * q + y % p;
      assert 2 * (p * q) == 2 * p * q;
    }
    ModIs(x, 2 * p, q, 2 * (y % p) + x % 2);
  }

  lemma ModIs(x: nat, d: nat, q: nat, r: nat)
    requires d > 0 && r < d && x == d * q + r
    ensures x % d == r && x / d == q
  {
    var e := x / d - q;
    assert d * e == r - x % d by {
      assert x == d * (x / d) + x % d;
      assert d * e == d * (x / d) - d * q;
    }
    TimesAtLeast(d, e);
  }

  lemma TimesAtLeast(d: int, e: int)
    requires d > 0
    ensures e > 0 ==> d * e >= d
    ensures e < 0 ==> d * e <= -d
  {
  }

  /** A prefix mask clears the bits below the prefix. */
  lemma {:induction false} AndPrefix(total: nat, x: nat, n: nat)
    requires x < Pow2(total) && n <= total
    ensures Pow2(n) <= Pow2(total) && And(x, Pow2(total) - Pow2(n)) == x - x % Pow2(n)
    decreases n
  {
    hide And;
    Pow2Mono(n, total);
    if n == 0 {
      AndAll(total, x);
    } else {
      var p := Pow2(n - 1);
      AndPrefix(total - 1, x / 2, n - 1);
      ModDouble(x, p);
      AndEven(x, Pow2(total - 1) - p);
    }
  }

  lemma AndEven(x: nat, m: nat)
    ensures And(x, 2 * m) == 2 * And(x / 2, m)
  {
    assert (2 * m) / 2 == m;
    if x == 1 {
      assert And(0, m) == 0;
    }
  }

  lemma Pow2Of32()
    ensures Pow2(32) == 0x1_0000_0000
  {
    assert Pow2(8) == 256;
    assert Pow2(16) == 0x1_0000;
    assert Pow2(20) == 0x10_0000;
    assert Pow2(24) == 0x100_0000;
    assert Pow2(28) == 0x1000_0000;
  }
}
