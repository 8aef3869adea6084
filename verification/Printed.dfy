/**
What a directive prints and scans, in the terms of a printf manual: which character
asks for what, how the field is laid out, and what its digits are worth.
*/
module Printed {
  import opened Wrappers
  import opened Numerals
  import opened Conversions
  import opened Vsnprintf
  import opened Directives
  import opened Vsscanf

  // ---- flags and widths ------------------------------------------------------------------

  /** Which characters are read as what within a directive. */
  lemma CharacterClasses(c: char)
    ensures IsFlag(c) <==> c in "#0- +'I"
    ensures StartsWidth(c) <==> c in "*123456789"
    ensures IsLength(c) <==> c in "hlL"
    ensures IsInt(c) <==> c in "diuoxXb"
  {
  }

  /** Each flag character asks for one thing, whatever else is there and however often. */
  lemma {:induction false} FlagLaw(flags: seq<char>, f: Flags)
    ensures FlagsOf(flags, f) == Flags(f.alternate || '#' in flags, f.zeroPad || '0' in flags, f.left || '-' in flags,
                                       f.space || ' ' in flags, f.plus || '+' in flags, f.signed, f.small)
    decreases |flags|
  {
    if flags != [] {
      FlagLaw(flags[1..], WithFlag(flags[0], f));
      assert flags == [flags[0]] + flags[1..];
      OneFlagLaw(flags[0], f);
    }
  }

  lemma OneFlagLaw(c: char, f: Flags)
    ensures WithFlag(c, f) == Flags(f.alternate || c == '#', f.zeroPad || c == '0', f.left || c == '-',
                                    f.space || c == ' ', f.plus || c == '+', f.signed, f.small)
  {
  }

  // Is the field to be filled on the right? A negative width argument asks for it too.
  predicate LeftAligned(h: Head, args: seq<Arg>) {
    '-' in h.flags || (h.widths == [Star] && Int32(IntArg(args)) < 0)
  }

  // The width asked for, of at most one.
  function WidthAsked(h: Head, args: seq<Arg>): nat {
    if h.widths == [] then 0
    else if h.widths[0].Number? then Abs(Value(h.widths[0].digits, 0, 10))
    else Abs(Int32(IntArg(args)))
  }

  // The arguments left for the conversion.
  function ArgsFor(h: Head, args: seq<Arg>): seq<Arg> {
    if h.widths == [Star] then Rest(args) else args
  }

  lemma SizingLaw(h: Head, c: char, args: seq<Arg>)
    requires |h.widths| <= 1 && c != '*'
    ensures var z := Sized(h, c, args);
            && z.width == WidthAsked(h, args) && z.args == ArgsFor(h, args)
            && z.flags == Flags('#' in h.flags, '0' in h.flags, LeftAligned(h, args), ' ' in h.flags, '+' in h.flags, false, false)
  {
    FlagLaw(h.flags, NoFlags);
    var z := Sizing(FlagsOf(h.flags, NoFlags), 0, args);
    hide FlagsOf, Value;
    if h.widths == [] {
      assert WidenedAll(h.widths, z) == z;
    } else {
      assert h.widths == [h.widths[0]] && h.widths[1..] == [];
      assert WidenedAll([], Widened(h.widths[0], z)) == Widened(h.widths[0], z);
      assert WidenedAll(h.widths, z) == Widened(h.widths[0], z);
    }
  }

  // ---- numbers ---------------------------------------------------------------------------------

  // The base that each conversion prints in.
  function Radix(c: char): nat {
    if c == 'o' then 8 else if c == 'b' then 2 else if c == 'x' || c == 'X' then 16 else 10
  }

  /** What a digit is worth. */
  lemma DigitWorth(c: char)
    ensures '0' <= c <= '9' ==> DigitValue(c) == c as int - 48
    ensures 'a' <= c <= 'f' ==> DigitValue(c) == c as int - 97 + 10
    ensures 'A' <= c <= 'F' ==> DigitValue(c) == c as int - 65 + 10
  {
  }

  // A plain numeral: digits of the base, in the case of the conversion, no zero in front, worth n.
  ghost predicate Numeral(s: seq<char>, n: nat, c: char) {
    && s != [] && Value(s, 0, Radix(c)) == n && (n > 0 ==> s[0] != '0') && (n == 0 ==> s == ['0'])
    && forall i :: 0 <= i < |s| ==> '0' <= s[i] <= '9' || (c == 'x' && 'a' <= s[i] <= 'f') || (c == 'X' && 'A' <= s[i] <= 'F')
  }

  lemma {:induction false} DigitsPlain(n: nat, base: nat, small: bool)
    requires BaseOk(base)
    ensures var s := Digits(n, base, small);
            && (n > 0 ==> s[0] != '0') && (n == 0 ==> s == ['0'])
            && forall i :: 0 <= i < |s| ==>
                 '0' <= s[i] <= '9' || (base == 16 && (if small then 'a' <= s[i] <= 'f' else 'A' <= s[i] <= 'F'))
    decreases n
  {
    hide Digits, Digit;
    DigitsStep(n, base, small);
    OneDigitPlain(n % base, base, small);
    if n >= base {
      DigitsPlain(n / base, base, small);
      assert n / base > 0;
    }
  }

  lemma OneDigitPlain(d: nat, base: nat, small: bool)
    requires BaseOk(base) && d < base
    ensures var c := Digit(d, small);
            && (c == '0' <==> d == 0)
            && ('0' <= c <= '9' || (base == 16 && (if small then 'a' <= c <= 'f' else 'A' <= c <= 'F')))
  {
  }

  lemma NumeralOf(n: nat, c: char)
    requires IsInt(c)
    ensures Numeral(Digits(n, BaseOf(c), c == 'x'), n, c)
  {
    DigitsPlain(n, BaseOf(c), c == 'x');
    DigitsValue(n, BaseOf(c), c == 'x');
    hide Digits, Value;
  }

  function SignAsked(h: Head, v: int): seq<char> {
    if v < 0 then ['-'] else if '+' in h.flags then ['+'] else if ' ' in h.flags then [' '] else []
  }

  function PrefixAsked(h: Head, c: char): seq<char> {
    if '#' !in h.flags then []
    else if c == 'o' then ['0']
    else if c == 'x' then ['0', 'x']
    else if c == 'X' then ['0', 'X']
    else []
  }

  predicate Fits32(c: char, v: int) {
    if c in "di" then -0x8000_0000 <= v < 0x8000_0000 else 0 <= v < 0x1_0000_0000
  }

  /** An integer directive, with at most one width and any length modifiers, prints for an argument v that fits 32 bits:
      spaces, sign, prefix, zeros, the numeral of v and spaces. Only one of the fillings is there, as the flags ask, and it
      is as long as the width lacks. */
  lemma IntegerPrinted(h: Head, c: char, args: seq<Arg>) returns (before: nat, zeros: nat, digits: seq<char>, after: nat)
    requires c in "diuoxXb" && |h.widths| <= 1 && Fits32(c, IntArg(ArgsFor(h, args)))
    ensures var v := IntArg(ArgsFor(h, args));
            && Meaning(Spec(h, c), args)
            == Repeat(' ', before) + (SignAsked(h, v) + (PrefixAsked(h, c) + (Repeat('0', zeros) + digits + Repeat(' ', after))))
            && Numeral(digits, if v < 0 then -v else v, c)
            && (var n := |SignAsked(h, v)| + |PrefixAsked(h, c)| + |digits|; var w := WidthAsked(h, args);
                before + zeros + after == if w > n then w - n else 0)
            && (if LeftAligned(h, args) then before == 0 && zeros == 0
                else if '0' in h.flags then before == 0 && after == 0
                else zeros == 0 && after == 0)
  {
    CharacterClasses(c);
    NumberFits(c, IntArg(ArgsFor(h, args)));
    hide IsInt, Fits32;
    before, zeros, digits, after := IntegerShape(h, c, args, IntArg(ArgsFor(h, args)));
  }

  function FlagsAsked(h: Head, args: seq<Arg>): Flags {
    Flags('#' in h.flags, '0' in h.flags, LeftAligned(h, args), ' ' in h.flags, '+' in h.flags, false, false)
  }

  lemma IntegerMeaning(h: Head, c: char, args: seq<Arg>, v: int)
    requires IsInt(c) && |h.widths| <= 1 && v == IntArg(ArgsFor(h, args)) && InRange(c, v)
    ensures Meaning(Spec(h, c), args) == IntText(v, BaseOf(c), WidthAsked(h, args), FlagsFor(c, FlagsAsked(h, args)))
    ensures (v < 0 ==> IsSigned(c)) && Magnitude(v, FlagsFor(c, FlagsAsked(h, args))) == if v < 0 then -v else v
  {
    var f := FlagsAsked(h, args);
    SizingLaw(h, c, args);
    SameText(c, LengthOf(h.lengths, Plain), v, WidthAsked(h, args), f);
    RangeFacts(c, v, f);
    hide Sized, IntText, FlagsFor, BaseOf, NumberOf, LengthOf, InRange, Magnitude, WidthAsked, ArgsFor, LeftAligned;
  }

  lemma IntegerShape(h: Head, c: char, args: seq<Arg>, v: int) returns (before: nat, zeros: nat, digits: seq<char>, after: nat)
    requires IsInt(c) && |h.widths| <= 1 && v == IntArg(ArgsFor(h, args)) && InRange(c, v)
    ensures Meaning(Spec(h, c), args)
         == Repeat(' ', before) + (SignAsked(h, v) + (PrefixAsked(h, c) + (Repeat('0', zeros) + digits + Repeat(' ', after))))
    ensures Numeral(digits, if v < 0 then -v else v, c)
    ensures before + zeros + after == Lacking(WidthAsked(h, args), |SignAsked(h, v)| + |PrefixAsked(h, c)| + |digits|)
    ensures if LeftAligned(h, args) then before == 0 && zeros == 0
            else if '0' in h.flags then before == 0 && after == 0
            else zeros == 0 && after == 0
  {
    hide Meaning, IntText, Digits, Numeral, FlagsFor, BaseOf, InRange, Magnitude, WidthAsked, ArgsFor, Sign, Prefix, SignAsked, PrefixAsked,
         Repeat, Lacking, IsInt, IntArg, LeftAligned;
    var f := FlagsAsked(h, args);
    IntegerMeaning(h, c, args, v);
    AskedFor(h, c, v, f);
    NumeralOf(if v < 0 then -v else v, c);
    digits := Digits(if v < 0 then -v else v, BaseOf(c), c == 'x');
    before, zeros, after := Shaped(v, BaseOf(c), WidthAsked(h, args), FlagsFor(c, f));
  }

  lemma NumberFits(c: char, v: int)
    requires Fits32(c, v)
    ensures InRange(c, v)
  {
  }

  lemma AskedFor(h: Head, c: char, v: int, f: Flags)
    requires IsInt(c) && (v < 0 ==> IsSigned(c))
    requires f.alternate == ('#' in h.flags) && f.space == (' ' in h.flags) && f.plus == ('+' in h.flags) && !f.signed && !f.small
    ensures var g := FlagsFor(c, f);
            && Sign(v, g) == SignAsked(h, v) && Prefix(BaseOf(c), g) == PrefixAsked(h, c)
            && g.small == (c == 'x') && g.left == f.left && g.zeroPad == f.zeroPad
  {
  }

  lemma Shaped(v: int, base: nat, width: nat, f: Flags) returns (a: nat, z: nat, b: nat)
    requires 2 <= base <= 16
    ensures var d := Digits(Magnitude(v, f), base, f.small);
            && IntText(v, base, width, f)
            == Repeat(' ', a) + (Sign(v, f) + (Prefix(base, f) + (Repeat('0', z) + d + Repeat(' ', b))))
            && a + z + b == Lacking(width, |Sign(v, f)| + |Prefix(base, f)| + |d|)
            && (if f.left then a == 0 && z == 0 else if f.zeroPad then a == 0 && b == 0 else z == 0 && b == 0)
  {
    hide Digits, Sign, Prefix, Magnitude, Repeat, Lacking;
    var d := Digits(Magnitude(v, f), base, f.small);
    var lead := Sign(v, f) + Prefix(base, f);
    var pad := Lacking(width, |lead| + |d|);
    a, z, b := 0, 0, 0;
    NoRepeat();
    if f.left {
      b := pad;
    } else if f.zeroPad {
      z := pad;
    } else {
      a := pad;
    }
  }

  lemma NoRepeat()
    ensures Repeat(' ', 0) == [] && Repeat('0', 0) == []
  {
  }

  /** %p prints the 32 bits of the pointer in hexadecimal behind 0x. */
  lemma PointerPrinted(h: Head, args: seq<Arg>) returns (before: nat, zeros: nat, digits: seq<char>, after: nat)
    requires |h.widths| <= 1
    ensures Meaning(Spec(h, 'p'), args)
         == Repeat(' ', before) + (SignAsked(h, 0) + (['0', 'x'] + (Repeat('0', zeros) + digits + Repeat(' ', after))))
    ensures Numeral(digits, IntArg(ArgsFor(h, args)) % 0x1_0000_0000, 'x')
  {
    SizingLaw(h, 'p', args);
    var z := Sized(h, 'p', args);
    var v := IntArg(z.args) % 0x1_0000_0000;
    var f := FlagsFor('p', z.flags);
    NumeralOf(v, 'x');
    hide Sized, Digits, Value, Numeral, LengthOf, IntArg, Int32;
    assert Sign(v, f) == SignAsked(h, 0) && Prefix(16, f) == ['0', 'x'] && Magnitude(v, f) == v;
    digits := Digits(v, 16, true);
    before, zeros, after := Shaped(v, 16, z.width, f);
  }

  // ---- text --------------------------------------------------------------------------------------

  lemma {:induction false} CStrWhole(s: seq<char>)
    requires NUL !in s
    ensures CStr(s) == s
  {
    if s != [] {
      assert s == [s[0]] + s[1..];
      CStrWhole(s[1..]);
    }
  }

  /** A string directive prints the string, or (null) for NULL, filled up with spaces on the side the flags ask for. */
  lemma StringPrinted(h: Head, args: seq<Arg>, s: seq<char>) returns (pad: nat)
    requires |h.widths| <= 1 && NUL !in s && ArgsFor(h, args) != []
    requires var a := ArgsFor(h, args)[0]; a == Str(Some(s)) || (a == Str(None) && s == "(null)")
    ensures Meaning(Spec(h, 's'), args) == if LeftAligned(h, args) then s + Repeat(' ', pad) else Repeat(' ', pad) + s
    ensures pad == if WidthAsked(h, args) > |s| then WidthAsked(h, args) - |s| else 0
  {
    SizingLaw(h, 's', args);
    CStrWhole(s);
    hide Sized, CStr, Repeat, LengthOf;
    pad := if WidthAsked(h, args) > |s| then WidthAsked(h, args) - |s| else 0;
  }

  /** %c prints one character, filled up likewise; %% a percent sign; anything else itself behind one. */
  lemma OthersPrinted(h: Head, c: char, args: seq<Arg>) returns (pad: nat)
    requires |h.widths| <= 1 && !IsInt(c) && c != 's' && c != 'p' && c != '*'
    ensures c == 'c' ==>
              var x := (IntArg(ArgsFor(h, args)) % 256) as char;
              Meaning(Spec(h, c), args) == if LeftAligned(h, args) then [x] + Repeat(' ', pad) else Repeat(' ', pad) + [x]
    ensures pad == if WidthAsked(h, args) > 1 then WidthAsked(h, args) - 1 else 0
    ensures c != 'c' ==> Meaning(Spec(h, c), args) == if c == '%' then "%" else ['%', c]
  {
    SizingLaw(h, c, args);
    hide Sized, Repeat, LengthOf;
    pad := if WidthAsked(h, args) > 1 then WidthAsked(h, args) - 1 else 0;
  }

  // ---- scanning ------------------------------------------------------------------------------------

  /** How much of a number is stored: as many bits as the object of the length modifier has. */
  lemma ObjectSizes()
    ensures Values(Char) == 0x100 && Values(Short) == 0x1_0000 && Values(Plain) == Values(Long) == 0x1_0000_0000
    ensures Values(LongLong) == Values(Double) == 0x1_0000_0000_0000_0000
  {
  }

  /** The characters skipped before a number: the space and codes 9 to 13. */
  lemma SpaceCodes(c: char)
    ensures IsSpace(c) <==> c as int == 32 || 9 <= c as int <= 13
  {
  }

  lemma {:induction false} LimitedRead(s: seq<char>, i: nat, t: seq<char>, r: Reader, base: nat, sign: bool)
    requires Reads(s, i, t) && AllAccepted(t, base) && BaseOk(base) && r.limited && |t| <= r.width
    requires 0 <= r.n && Value(t, r.n, base) < LONG_HALF
    ensures ReadOn(s, i, r, base, sign)
         == ReadOn(s, i + |t|, r.(n := Value(t, r.n, base), width := r.width - |t|), base, sign)
    decreases |t|
  {
    hide Take, Accepts, DigitValue, Reads;
    if t != [] {
      DigitGrows(t, r.n, base);
      ReadsAt(s, i, t, 0);
      assert t == [t[0]] + t[1..];
      ReadsSplit(s, i, [t[0]], t[1..]);
      LimitedDigit(r, t[0], base, sign);
      LimitedRead(s, i + 1, t[1..], r.(n := r.n * base + DigitValue(t[0]), width := r.width - 1), base, sign);
    }
  }

  lemma LimitedDigit(r: Reader, c: char, base: nat, sign: bool)
    requires Accepts(c, base) && r.limited && r.width != 0 && 0 <= r.n * base + DigitValue(c) < LONG_HALF
    ensures Take(r, c, base, sign) == Some(r.(n := r.n * base + DigitValue(c), width := r.width - 1)) && c != NUL
  {
  }

  lemma WidthSpent(s: seq<char>, i: nat, r: Reader, base: nat, sign: bool)
    requires BaseOk(base) && r.limited && r.width == 0 && !r.neg && r.n >= 0 && Accepts(At(s, i), base)
    ensures ReadOn(s, i, r, base, sign) == (r.n, i)
  {
  }

  /** A field width: of a longer row of digits exactly that many are read, and the next conversion goes on behind them. */
  lemma FieldWidth(s: seq<char>, i: nat, t: seq<char>, width: nat, base: nat, sign: bool)
    requires BaseOk(base) && Reads(s, i, t) && AllAccepted(t, base) && 0 < width < |t|
    requires Value(t[..width], 0, base) < LONG_HALF
    ensures ReadOn(s, i, Vsscanf.Start(width), base, sign) == (Value(t[..width], 0, base), i + width)
  {
    hide ReadOn, Accepts, Value;
    var u := t[..width];
    assert t == u + t[width..];
    ReadsSplit(s, i, u, t[width..]);
    ReadsAt(s, i, t, width);
    assert Accepts(t[width], base);
    LimitedRead(s, i, u, Vsscanf.Start(width), base, sign);
    ValueGrows(u, 0, base);
    WidthSpent(s, i + width, Vsscanf.Start(width).(n := Value(u, 0, base), width := 0), base, sign);
  }
}
