/**
The integer conversions of vsscanf, and the round trip with vsnprintf: when does
scanning what a conversion printed give the number back?
*/
module Vsscanf {
  import opened Wrappers
  import opened Numerals
  import opened Conversions
  import opened Vsnprintf
  import opened Directives

  predicate IsSpace(c: char) {
    c == ' ' || c == '\U{000C}' || c == '\n' || c == '\r' || c == '\t' || c == '\U{000B}'
  }

  function AfterSpaces(s: seq<char>, i: nat): (e: nat)
    ensures i <= e
    decreases |s| - i
  {
    if IsSpace(At(s, i)) then AfterSpaces(s, i + 1) else i
  }

  // valid_sint: can a number in this base start with c?
  predicate ValidStart(c: char, base: nat, sign: bool) {
    || (base == 2 && '0' <= c < '2')
    || (base == 8 && '0' <= c < '8')
    || (base == 10 && ('0' <= c <= '9' || (sign && (c == '-' || c == '+'))))
    || (base == 16 && ('0' <= c <= '9' || 'a' <= c <= 'f' || 'A' <= c <= 'F'))
  }

  // get_int's variables; width counts down only when limited is set.
  datatype Reader = Reader(n: int, neg: bool, xskip: bool, width: int, limited: bool)

  // The value an accumulator of 64 bits keeps.
  const LONG_HALF := 0x8000_0000_0000_0000

  function Kept(x: int): (y: int)
    ensures -LONG_HALF <= x < LONG_HALF ==> y == x
  {
    (x + LONG_HALF) % (2 * LONG_HALF) - LONG_HALF
  }

  function Start(width: int): Reader {
    Reader(0, false, false, width, width > 0)
  }

  // One turn of get_int's loop on character c; None when it stops.
  function Take(r: Reader, c: char, base: nat, sign: bool): Option<Reader> {
    if sign && !r.neg && base == 10 && c == '-' then
      Some(r.(neg := true, width := if r.limited then r.width - 1 else r.width))
    else if base == 16 && !r.xskip && (c == 'x' || c == 'X') then Some(r.(xskip := true, n := 0))
    else if c == NUL || (r.limited && r.width == 0) || !Accepts(c, base) then None
    else Some(r.(n := Kept(r.n * base + DigitValue(c)), width := if r.limited then r.width - 1 else r.width))
  }

  function Finish(r: Reader): int {
    if r.neg && r.n > 0 then -r.n else r.n
  }

  // The object the conversion stores to has so many values.
  function Values(l: Length): (n: nat)
    ensures n > 0
  {
    match l
    case Char => 0x100
    case Short => 0x1_0000
    case LongLong => 2 * LONG_HALF
    case Double => 2 * LONG_HALF
    case _ => WORD
  }

  datatype Scan = Stopped | Passed | Stored(value: nat)

  function ReadOn(s: seq<char>, i: nat, r: Reader, base: nat, sign: bool): (int, nat)
    decreases |s| - i
  {
    if At(s, i) == NUL then (Finish(r), i)
    else
      match Take(r, At(s, i), base, sign)
      case None => (Finish(r), i)
      case Some(r') => ReadOn(s, i + 1, r', base, sign)
  }

  // What vsscanf does for conversion c, with a length modifier, a star to skip the value and a field width (0 for none).
  function Scanned(c: char, l: Length, star: bool, width: nat, text: seq<char>): Scan {
    var i := AfterSpaces(text, 0);
    if text == [] || At(text, 0) == NUL || !ValidStart(At(text, i), BaseOf(c), IsSigned(c)) then Stopped
    else if star then Passed
    else Stored(ReadOn(text, i, Start(width), BaseOf(c), IsSigned(c)).0 % Values(l))
  }

  // ---- the loops -----------------------------------------------------------------------

  method GetInt(s: seq<char>, at: nat, width: int, base: nat, sign: bool) returns (num: int, end: nat)
    ensures (num, end) == if BaseOk(base) then ReadOn(s, at, Start(width), base, sign) else (0, at)
  {
    hide Accepts, DigitValue, Kept;
    if !BaseOk(base) {
      return 0, at;
    }
    var n, w, neg, xskip, left := 0, width > 0, false, false, width;
    end := at;
    while At(s, end) != NUL
      invariant ReadOn(s, end, Reader(n, neg, xskip, left, w), base, sign) == ReadOn(s, at, Start(width), base, sign)
      decreases |s| - end
    {
      var c := At(s, end);
      if sign && !neg && base == 10 && c == '-' {
        neg := true;
        if w {
          left := left - 1;
        }
      } else if base == 16 && !xskip && (c == 'x' || c == 'X') {
        xskip := true;
        n := 0;
      } else if (w && left == 0) || !Accepts(c, base) {
        break;
      } else {
        if w {
          left := left - 1;
        }
        n := Kept(n * base + DigitValue(c));
      }
      end := end + 1;
    }
    num := if neg && n > 0 then -n else n;
  }

  method ScanInt(c: char, l: Length, star: bool, width: nat, text: seq<char>) returns (r: Scan)
    ensures r == Scanned(c, l, star, width, text)
  {
    if At(text, 0) == NUL {
      return Stopped;
    }
    var i := 0;
    while IsSpace(At(text, i))
      invariant AfterSpaces(text, i) == AfterSpaces(text, 0)
      decreases |text| - i
    {
      i := i + 1;
    }
    if !ValidStart(At(text, i), BaseOf(c), IsSigned(c)) {
      return Stopped;
    }
    var num, _ := GetInt(text, i, width, BaseOf(c), IsSigned(c));
    return if star then Passed else Stored(num % Values(l));
  }

  // ---- reading digits ----------------------------------------------------------------------

  lemma {:induction false} SpacesSkipped(s: seq<char>, i: nat, a: nat)
    requires Reads(s, i, Repeat(' ', a)) && !IsSpace(At(s, i + a))
    ensures AfterSpaces(s, i) == i + a
    decreases a
  {
    if a > 0 {
      ReadsAt(s, i, Repeat(' ', a), 0);
      assert Repeat(' ', a) == [' '] + Repeat(' ', a - 1);
      ReadsSplit(s, i, [' '], Repeat(' ', a - 1));
      SpacesSkipped(s, i + 1, a - 1);
    }
  }

  lemma TakeDigit(r: Reader, c: char, base: nat, sign: bool)
    requires Accepts(c, base) && !r.limited && 0 <= r.n * base + DigitValue(c) < LONG_HALF
    ensures Take(r, c, base, sign) == Some(r.(n := r.n * base + DigitValue(c))) && c != NUL
  {
  }

  // Reading on never makes the number smaller.
  lemma {:induction false} ValueGrows(t: seq<char>, n: nat, base: nat)
    requires AllAccepted(t, base) && base >= 2
    ensures Value(t, n, base) >= n
    decreases |t|
  {
    hide Accepts, DigitValue;
    if t != [] {
      OneDigit(t[0], n, base);
      ValueGrows(t[1..], n * base + DigitValue(t[0]), base);
    }
  }

  lemma OneDigit(c: char, n: nat, base: nat)
    requires Accepts(c, base) && base >= 2
    ensures n * base + DigitValue(c) >= n
  {
    assert DigitValue(c) >= 0;
    hide DigitValue, Accepts;
    assert n * base == n + n * (base - 1);
  }

  lemma DigitGrows(t: seq<char>, n: nat, base: nat)
    requires AllAccepted(t, base) && BaseOk(base) && t != []
    ensures 0 <= n * base + DigitValue(t[0]) <= Value(t, n, base)
  {
    hide Value, Accepts, DigitValue;
    OneDigit(t[0], n, base);
    ValueGrows(t[1..], n * base + DigitValue(t[0]), base);
    assert Value(t, n, base) == Value(t[1..], n * base + DigitValue(t[0]), base) by { ValueStep(t, n, base); }
  }

  lemma ValueStep(t: seq<char>, n: int, base: nat)
    requires t != []
    ensures Value(t, n, base) == Value(t[1..], n * base + DigitValue(t[0]), base)
  {
  }

  lemma {:induction false} DigitsRead(s: seq<char>, i: nat, t: seq<char>, r: Reader, base: nat, sign: bool)
    requires Reads(s, i, t) && AllAccepted(t, base) && BaseOk(base) && !r.limited && 0 <= r.n && Value(t, r.n, base) < LONG_HALF
    ensures ReadOn(s, i, r, base, sign) == ReadOn(s, i + |t|, r.(n := Value(t, r.n, base)), base, sign)
    decreases |t|
  {
    hide Take, Accepts, DigitValue, Reads;
    if t != [] {
      DigitGrows(t, r.n, base);
      ReadsAt(s, i, t, 0);
      assert t == [t[0]] + t[1..];
      ReadsSplit(s, i, [t[0]], t[1..]);
      TakeDigit(r, t[0], base, sign);
      DigitsRead(s, i + 1, t[1..], r.(n := r.n * base + DigitValue(t[0])), base, sign);
    }
  }

  // Digits up to the end of the text or a space.
  lemma NumberRead(s: seq<char>, i: nat, t: seq<char>, b: nat, r: Reader, base: nat, sign: bool)
    requires i + |t| + b == |s| && Reads(s, i, t + Repeat(' ', b)) && AllAccepted(t, base) && BaseOk(base) && !r.limited
    requires 0 <= r.n && Value(t, r.n, base) < LONG_HALF
    ensures ReadOn(s, i, r, base, sign).0 == Finish(r.(n := Value(t, r.n, base)))
  {
    ReadsSplit(s, i, t, Repeat(' ', b));
    DigitsRead(s, i, t, r, base, sign);
    if b > 0 {
      ReadsAt(s, i + |t|, Repeat(' ', b), 0);
    }
  }

  // Zeros, then the digits of m: m is read.
  lemma PaddedNumber(z: nat, m: nat, base: nat, small: bool)
    requires BaseOk(base)
    ensures var t := Repeat('0', z) + Digits(m, base, small);
            AllAccepted(t, base) && Value(t, 0, base) == m && ValidStart(t[0], base, false)
  {
    var d := Digits(m, base, small);
    var t := Repeat('0', z) + d;
    DigitsValue(m, base, small);
    ValueZeros(z, d, base);
    AcceptedZeros(z, d, base);
    FirstDigit(m, base, small);
    assert t[0] == if z > 0 then '0' else d[0];
  }

  lemma AcceptedZeros(z: nat, d: seq<char>, base: nat)
    requires BaseOk(base) && AllAccepted(d, base)
    ensures AllAccepted(Repeat('0', z) + d, base)
  {
  }

  lemma {:induction false} FirstDigit(m: nat, base: nat, small: bool)
    requires BaseOk(base)
    ensures ValidStart(Digits(m, base, small)[0], base, false)
    decreases m
  {
    if m >= base {
      FirstDigit(m / base, base, small);
    }
  }

  // The prefix, zeros and digits of a number, then spaces: the number is read whatever the prefix.
  lemma BodyRead(s: seq<char>, i: nat, pre: seq<char>, z: nat, m: nat, b: nat, base: nat, small: bool, r: Reader, sign: bool)
    requires BaseOk(base) && !r.limited && !r.xskip && r.n == 0 && m < LONG_HALF
    requires pre == [] || (base == 8 && pre == ['0']) || (base == 16 && (pre == ['0', 'x'] || pre == ['0', 'X']))
    requires var t := Repeat('0', z) + Digits(m, base, small);
             i + |pre| + |t| + b == |s| && Reads(s, i, pre + (t + Repeat(' ', b)))
    ensures ReadOn(s, i, r, base, sign).0 == Finish(r.(n := m))
    ensures ValidStart(At(s, i), base, false)
  {
    hide Digits, Repeat, Accepts, Value, ReadOn;
    var d := Digits(m, base, small);
    var t := Repeat('0', z) + d;
    ReadsSplit(s, i, pre, t + Repeat(' ', b));
    PaddedNumber(z, m, base, small);
    if pre == [] {
      ReadsAt(s, i, t + Repeat(' ', b), 0);
      NumberRead(s, i, t, b, r, base, sign);
    } else {
      ReadsAt(s, i, pre, 0);
      if base == 8 {
        assert pre + (t + Repeat(' ', b)) == Repeat('0', z + 1) + d + Repeat(' ', b);
        PaddedNumber(z + 1, m, base, small);
        NumberRead(s, i, Repeat('0', z + 1) + d, b, r, base, sign);
      } else {
        ReadsAt(s, i, pre, 1);
        HexPrefix(s, i, r, sign);
        NumberRead(s, i + 2, t, b, r.(xskip := true), base, sign);
      }
    }
  }

  lemma HexPrefix(s: seq<char>, i: nat, r: Reader, sign: bool)
    requires !r.limited && !r.xskip && r.n == 0
    requires At(s, i) == '0' && (At(s, i + 1) == 'x' || At(s, i + 1) == 'X')
    ensures ReadOn(s, i, r, 16, sign) == ReadOn(s, i + 2, r.(xskip := true), 16, sign)
  {
    assert ReadOn(s, i, r, 16, sign) == ReadOn(s, i + 1, r, 16, sign);
  }

  // ---- the text of a conversion --------------------------------------------------------------

  // IntText in one form: spaces, sign, prefix, zeros, digits, spaces.
  lemma TextShape(num: int, base: nat, width: nat, flags: Flags) returns (a: nat, z: nat, b: nat)
    requires 2 <= base <= 16
    ensures IntText(num, base, width, flags)
         == Repeat(' ', a) + (Sign(num, flags)
                              + (Prefix(base, flags)
                                 + (Repeat('0', z) + Digits(Magnitude(num, flags), base, flags.small) + Repeat(' ', b))))
  {
    hide Digits, Sign, Prefix, Magnitude, Repeat, Lacking;
    var d := Digits(Magnitude(num, flags), base, flags.small);
    var pad := Lacking(width, |Sign(num, flags) + Prefix(base, flags)| + |d|);
    a, z, b := 0, 0, 0;
    if flags.left {
      b := pad;
    } else if flags.zeroPad {
      z := pad;
    } else {
      a := pad;
    }
  }

  predicate InRange(c: char, v: int) {
    if IsSigned(c) then -0x8000_0000 <= v < 0x8000_0000 else 0 <= v < WORD
  }

  lemma RangeFacts(c: char, v: int, flags: Flags)
    requires InRange(c, v) && !flags.signed
    ensures Magnitude(v, FlagsFor(c, flags)) == (if v < 0 then -v else v)
    ensures v < 0 ==> IsSigned(c)
    ensures v % WORD == 0 <==> v == 0
    ensures NumberOf(c, Plain, v) == v
  {
  }

  // The text without a plus sign in front: spaces, perhaps a minus, and the body.
  lemma PlainRead(c: char, text: seq<char>, a: nat, neg: bool, pre: seq<char>, z: nat, m: nat, b: nat, small: bool, l: Length)
    requires var base := BaseOf(c);
             pre == [] || (base == 8 && pre == ['0']) || (base == 16 && (pre == ['0', 'x'] || pre == ['0', 'X']))
    requires m < LONG_HALF && (neg ==> IsSigned(c) && m > 0)
    requires text == Repeat(' ', a) + ((if neg then ['-'] else [])
                                       + (pre + (Repeat('0', z) + Digits(m, BaseOf(c), small) + Repeat(' ', b))))
    ensures Scanned(c, l, false, 0, text) == Stored(Finish(Reader(m, neg, false, 0, false)) % Values(l))
  {
    hide Digits, ReadOn, AfterSpaces, Values, Finish, Scanned, ValidStart, IsSpace, Reads, Repeat;
    var base, sign := BaseOf(c), IsSigned(c);
    var body := pre + (Repeat('0', z) + Digits(m, base, small) + Repeat(' ', b));
    var minus := if neg then ['-'] else [];
    WholeRead(text, Repeat(' ', a), minus, body);
    var r := if neg then Start(0).(neg := true) else Start(0);
    SpacesLength(a);
    BodyRead(text, a + |minus|, pre, z, m, b, base, small, r, sign);
    if neg {
      ReadsAt(text, a, minus, 0);
      MinusTaken(text, a);
    }
    StartsNumber(At(text, a), base, sign);
    SpacesSkipped(text, 0, a);
    if a > 0 {
      ReadsAt(text, 0, Repeat(' ', a), 0);
    }
    ScanStores(text, a, c, l);
  }

  lemma WholeRead(text: seq<char>, s: seq<char>, t: seq<char>, u: seq<char>)
    requires text == s + (t + u)
    ensures Reads(text, 0, s) && Reads(text, |s|, t) && Reads(text, |s| + |t|, u) && |text| == |s| + |t| + |u|
  {
    assert text[0..] == text;
    assert Reads(text, 0, s + (t + u));
    ReadsSplit(text, 0, s, t + u);
    ReadsSplit(text, |s|, t, u);
  }

  lemma SpacesLength(a: nat)
    ensures |Repeat(' ', a)| == a && (a > 0 ==> Repeat(' ', a)[0] == ' ')
  {
  }

  lemma StartsNumber(c: char, base: nat, sign: bool)
    ensures ValidStart(c, base, sign) ==> !IsSpace(c) && c != NUL
    ensures ValidStart(c, base, false) ==> ValidStart(c, base, sign)
  {
  }

  lemma ScanStores(text: seq<char>, a: nat, c: char, l: Length)
    requires text != [] && At(text, 0) != NUL && AfterSpaces(text, 0) == a && ValidStart(At(text, a), BaseOf(c), IsSigned(c))
    ensures Scanned(c, l, false, 0, text) == Stored(ReadOn(text, a, Start(0), BaseOf(c), IsSigned(c)).0 % Values(l))
  {
  }

  lemma MinusTaken(s: seq<char>, i: nat)
    requires At(s, i) == '-'
    ensures ValidStart(At(s, i), 10, true)
    ensures ReadOn(s, i, Start(0), 10, true) == ReadOn(s, i + 1, Start(0).(neg := true), 10, true)
  {
  }

  lemma PlusStops(s: seq<char>, i: nat, c: char)
    requires At(s, i) == '+'
    ensures ReadOn(s, i, Start(0), BaseOf(c), IsSigned(c)).0 == 0 && !IsSpace(At(s, i))
    ensures ValidStart(At(s, i), BaseOf(c), IsSigned(c)) <==> IsSigned(c)
  {
  }

  // A plus sign is let through in front of a signed number only, and then stops the reading at nothing.
  lemma PlusRead(c: char, text: seq<char>, a: nat, rest: seq<char>, l: Length)
    requires text == Repeat(' ', a) + (['+'] + rest)
    ensures Scanned(c, l, false, 0, text) == if IsSigned(c) then Stored(0) else Stopped
  {
    hide ReadOn, AfterSpaces, ValidStart, Values, BaseOf;
    assert text[0..] == text;
    assert Reads(text, 0, Repeat(' ', a) + (['+'] + rest));
    ReadsSplit(text, 0, Repeat(' ', a), ['+'] + rest);
    ReadsAt(text, a, ['+'] + rest, 0);
    PlusStops(text, a, c);
    SpacesSkipped(text, 0, a);
    if a > 0 {
      ReadsAt(text, 0, Repeat(' ', a), 0);
    }
  }

  // With a plus flag only a signed number is let through, and then 0 is stored for a positive one.
  predicate Survives(c: char, plus: bool, v: int, l: Length) {
    !plus || (IsSigned(c) && (v <= 0 || v % Values(l) == 0))
  }

  /** Print then scan: for every 32-bit value, width and flags, scanning the printed text in the same conversion, with
      any length modifier, stores the value (as much of it as the object holds) exactly when the plus flag is off, or
      the number is signed and not positive or 0 in that object. */
  lemma PrintScan(c: char, flags: Flags, width: nat, v: int, l: Length)
    requires IsInt(c) && InRange(c, v) && !flags.signed
    ensures Scanned(c, l, false, 0, IntText(v, BaseOf(c), width, FlagsFor(c, flags))) == Stored(v % Values(l))
        <==> Survives(c, flags.plus, v, l)
  {
    hide Scanned, IntText, Digits, Magnitude;
    var base, f := BaseOf(c), FlagsFor(c, flags);
    var text := IntText(v, base, width, f);
    var a, z, b := TextShape(v, base, width, f);
    RangeFacts(c, v, flags);
    var m := Magnitude(v, f);
    var pre := Prefix(base, f);
    var body := pre + (Repeat('0', z) + Digits(m, base, f.small) + Repeat(' ', b));
    if v < 0 {
      PlainRead(c, text, a, true, pre, z, m, b, f.small, l);
    } else if flags.plus {
      PlusRead(c, text, a, body, l);
    } else if flags.space {
      assert text == Repeat(' ', a + 1) + ([] + body);
      PlainRead(c, text, a + 1, false, pre, z, m, b, f.small, l);
    } else {
      PlainRead(c, text, a, false, pre, z, m, b, f.small, l);
    }
  }

  /** The same from a format directive with any flags, widths, precision and length modifiers, v being the argument its
      conversion takes. */
  lemma FormatScan(h: Head, c: char, args: seq<Arg>, to: Length)
    requires IsInt(c) && HeadOk(h) && InRange(c, IntArg(Sized(h, c, args).args))
    ensures var v := IntArg(Sized(h, c, args).args);
            Scanned(c, to, false, 0, Meaning(Spec(h, c), args)) == Stored(v % Values(to))
            <==> Survives(c, '+' in h.flags, v, to)
  {
    hide Scanned, IntText, Sized;
    var z := Sized(h, c, args);
    var v, l := IntArg(z.args), LengthOf(h.lengths, Plain);
    SizedFlags(h, c, args);
    SameText(c, l, v, z.width, z.flags);
    PrintScan(c, z.flags, z.width, v, to);
  }

  // Whatever size a number in range is read with, the same text is printed.
  lemma SameText(c: char, l: Length, v: int, width: nat, flags: Flags)
    requires InRange(c, v) && !flags.signed
    ensures IntText(NumberOf(c, l, v), BaseOf(c), width, FlagsFor(c, flags))
         == IntText(v, BaseOf(c), width, FlagsFor(c, flags))
  {
    hide Digits, Prefix, Repeat;
    var f := FlagsFor(c, flags);
    assert Magnitude(NumberOf(c, l, v), f) == Magnitude(v, f) && Sign(NumberOf(c, l, v), f) == Sign(v, f);
  }

  // The flags in front of a conversion: plus exactly when the format has one.
  lemma SizedFlags(h: Head, c: char, args: seq<Arg>)
    ensures Sized(h, c, args).flags.plus == ('+' in h.flags) && !Sized(h, c, args).flags.signed
  {
    FlagsKept(h.flags, NoFlags);
    WidthsKeep(h.widths, Sizing(FlagsOf(h.flags, NoFlags), 0, args));
  }

  lemma {:induction false} FlagsKept(flags: seq<char>, f: Flags)
    ensures FlagsOf(flags, f).plus == (f.plus || '+' in flags) && FlagsOf(flags, f).signed == f.signed
    decreases |flags|
  {
    hide WithFlag;
    if flags != [] {
      OneFlag(flags[0], f);
      FlagsKept(flags[1..], WithFlag(flags[0], f));
      assert flags == [flags[0]] + flags[1..];
    }
  }

  lemma OneFlag(c: char, f: Flags)
    ensures WithFlag(c, f).plus == (f.plus || c == '+') && WithFlag(c, f).signed == f.signed
  {
    if c == '+' {
      assert WithFlag(c, f) == f.(plus := true);
    }
  }

  lemma {:induction false} WidthsKeep(ws: seq<Width>, z: Sizing)
    ensures WidenedAll(ws, z).flags.plus == z.flags.plus && WidenedAll(ws, z).flags.signed == z.flags.signed
    decreases |ws|
  {
    if ws != [] {
      WidthsKeep(ws[1..], Widened(ws[0], z));
    }
  }
}
