/**
Numerals: the digits of a number in a base, most significant first, and the
number that a run of digits stands for.
*/
module Numerals {
  import opened Bits

  predicate BaseOk(base: nat) {
    base == 2 || base == 8 || base == 10 || base == 16
  }

  function Digit(d: nat, small: bool): char
    requires d < 16
  {
    if d < 10 then ('0' as int + d) as char
    else if small then ('a' as int + d - 10) as char else ('A' as int + d - 10) as char
  }

  function Digits(n: nat, base: nat, small: bool): (s: seq<char>)
    requires 2 <= base <= 16
    ensures s != []
    decreases n
  {
    if n < base then [Digit(n, small)] else Digits(n / base, base, small) + [Digit(n % base, small)]
  }

  predicate IsDigit(c: char) {
    '0' <= c <= '9'
  }

  // The code of a character after the scanner's upper-casing.
  function Upper(c: char): int {
    if c >= 'a' then c as int - 32 else c as int
  }

  predicate Accepts(c: char, base: nat) {
    var u := Upper(c);
    && (48 <= u <= 57 || (base == 16 && 65 <= u <= 70))
    && (base == 2 ==> u <= 49) && (base == 8 ==> u <= 55)
  }

  function DigitValue(c: char): (d: int)
    ensures IsDigit(c) ==> 0 <= d < 10 && d == c as int - 48
  {
    if Upper(c) >= 65 then Upper(c) - 65 + 10 else Upper(c) - 48
  }

  // The number read from s after a number n.
  function Value(s: seq<char>, n: int, base: nat): int
    decreases |s|
  {
    if s == [] then n else Value(s[1..], n * base + DigitValue(s[0]), base)
  }

  predicate AllAccepted(s: seq<char>, base: nat) {
    forall i :: 0 <= i < |s| ==> Accepts(s[i], base)
  }

  lemma DigitRead(d: nat, base: nat, small: bool)
    requires BaseOk(base) && d < base
    ensures Accepts(Digit(d, small), base) && DigitValue(Digit(d, small)) == d
  {
  }

  lemma {:induction false} ValueSnoc(s: seq<char>, c: char, n: int, base: nat)
    ensures Value(s + [c], n, base) == Value(s, n, base) * base + DigitValue(c)
    decreases |s|
  {
    if s != [] {
      assert (s + [c])[1..] == s[1..] + [c];
      ValueSnoc(s[1..], c, n * base + DigitValue(s[0]), base);
    } else {
      assert (s + [c])[1..] == [];
    }
  }

  /** Reading the digits of n gives n back. */
  lemma {:induction false} DigitsValue(n: nat, base: nat, small: bool)
    requires BaseOk(base)
    ensures Value(Digits(n, base, small), 0, base) == n && AllAccepted(Digits(n, base, small), base)
    decreases n
  {
    hide Accepts, Digit, DigitValue, Value, Digits;
    DigitRead(n % base, base, small);
    DigitsStep(n, base, small);
    var c := Digit(n % base, small);
    if n >= base {
      var s := Digits(n / base, base, small);
      Division(n, base);
      DigitsValue(n / base, base, small);
      NextDigit(n, n / base, s, c, base);
    } else {
      ValueNone(base);
      NextDigit(n, 0, [], c, base);
    }
  }

  lemma DigitsStep(n: nat, base: nat, small: bool)
    requires 2 <= base <= 16
    ensures Digits(n, base, small) == (if n < base then [] else Digits(n / base, base, small)) + [Digit(n % base, small)]
  {
  }

  lemma NextDigit(n: nat, q: nat, s: seq<char>, c: char, base: nat)
    requires n == q * base + DigitValue(c)
    requires Value(s, 0, base) == q
    ensures Value(s + [c], 0, base) == n
  {
    hide DigitValue, Value;
    ValueSnoc(s, c, 0, base);
  }

  lemma ValueNone(base: nat)
    ensures Value([], 0, base) == 0
  {
  }

  lemma Division(n: nat, base: nat)
    requires base > 0
    ensures n == n / base * base + n % base
  {
  }

  lemma {:induction false} DecimalDigits(n: nat)
    ensures forall i :: 0 <= i < |Digits(n, 10, true)| ==> IsDigit(Digits(n, 10, true)[i])
    ensures n > 0 ==> Digits(n, 10, true)[0] != '0'
  {
    if n >= 10 {
      DecimalDigits(n / 10);
    }
  }

  lemma {:induction false} DigitsBound(n: nat, base: nat, small: bool, k: nat)
    requires 2 <= base <= 16 && n < Pow2(k) && k > 0
    ensures |Digits(n, base, small)| <= k
    decreases k
  {
    if n >= base {
      assert n / base <= n / 2 by { QuotientLess(n, base); }
      DigitsBound(n / base, base, small, k - 1);
    }
  }

  // The last digit and the rest, as a loop that divides takes them off.
  lemma LastDigit(n: nat, base: nat, small: bool)
    requires 2 <= base <= 16
    ensures n / base > 0 <==> n >= base
    ensures n / base > 0 ==> n / base < n && Digits(n, base, small) == Digits(n / base, base, small) + [Digit(n % base, small)]
    ensures n / base == 0 ==> Digits(n, base, small) == [Digit(n % base, small)]
  {
    QuotientLess(n, base);
    if n >= base {
      assert n / base >= 1;
    }
  }

  lemma QuotientLess(n: nat, base: nat)
    requires base >= 2
    ensures n / base <= n / 2
  {
    var q := n / base;
    assert q * base <= n;
    assert q * 2 <= q * base;
  }

  function Repeat(c: char, n: nat): (s: seq<char>)
    ensures |s| == n && forall i :: 0 <= i < n ==> s[i] == c
  {
    seq(n, i => c)
  }

  lemma {:induction false} ValueZeros(z: nat, s: seq<char>, base: nat)
    ensures Value(Repeat('0', z) + s, 0, base) == Value(s, 0, base)
    decreases z
  {
    if z > 0 {
      assert (Repeat('0', z) + s)[1..] == Repeat('0', z - 1) + s;
      ValueZeros(z - 1, s, base);
    } else {
      assert Repeat('0', z) + s == s;
    }
  }
}
