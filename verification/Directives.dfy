/**
The directives a format string is made of, and what they stand for. Every format is
a row of directives, perhaps followed by one that is cut short; vsnprintf puts what
the directives stand for, and a terminator exactly when none is cut short.
*/
module Directives {
  import opened Wrappers
  import opened Numerals
  import opened Conversions
  import opened Vsnprintf

  // ---- syntax --------------------------------------------------------------------

  datatype Width = Number(digits: seq<char>) | Star

  // A directive up to its conversion: flags, widths, what follows a dot, and length modifiers.
  datatype Head = Head(flags: seq<char>, widths: seq<Width>, precision: Option<seq<char>>, lengths: seq<char>)

  datatype Item = Lit(c: char) | Spec(head: Head, conv: char)

  predicate IsLength(c: char) {
    c == 'h' || c == 'l' || c == 'L'
  }

  // Can c start a width?
  predicate StartsWidth(c: char) {
    c == '*' || (IsDigit(c) && c > '0')
  }

  predicate AllDigits(s: seq<char>) {
    forall i :: 0 <= i < |s| ==> IsDigit(s[i])
  }

  predicate WidthOk(w: Width) {
    w.Number? ==> w.digits != [] && AllDigits(w.digits) && w.digits[0] != '0'
  }

  // Two numbers in a row would be one.
  predicate WidthsOk(ws: seq<Width>) {
    ws == [] || (WidthOk(ws[0]) && WidthsOk(ws[1..]) && (ws[0].Number? && |ws| > 1 ==> ws[1].Star?))
  }

  predicate HeadOk(h: Head) {
    && (forall i :: 0 <= i < |h.flags| ==> IsFlag(h.flags[i]))
    && WidthsOk(h.widths)
    && (h.precision.Some? ==> AllDigits(h.precision.value))
    && (forall i :: 0 <= i < |h.lengths| ==> IsLength(h.lengths[i]))
  }

  predicate EndsInNumber(ws: seq<Width>) {
    ws != [] && ws[|ws| - 1].Number?
  }

  // c after the widths belongs to none of flags and widths.
  predicate AfterWidths(h: Head, c: char) {
    !StartsWidth(c) && (h.widths == [] ==> !IsFlag(c)) && (EndsInNumber(h.widths) ==> !IsDigit(c))
  }

  predicate AfterPrecision(h: Head, c: char) {
    if h.precision.Some? then !IsDigit(c) else c != '.' && AfterWidths(h, c)
  }

  // c can stand after the head: it continues no part of it.
  predicate Follows(h: Head, c: char) {
    !IsLength(c) && (h.lengths == [] ==> AfterPrecision(h, c))
  }

  predicate ItemOk(item: Item) {
    match item
    case Lit(c) => c != '%' && c != NUL
    case Spec(h, c) => HeadOk(h) && Follows(h, c) && c != NUL
  }

  function WidthText(w: Width): seq<char> {
    if w.Number? then w.digits else ['*']
  }

  function WidthsText(ws: seq<Width>): seq<char> {
    if ws == [] then [] else WidthText(ws[0]) + WidthsText(ws[1..])
  }

  function PrecisionText(p: Option<seq<char>>): seq<char> {
    if p.Some? then ['.'] + p.value else []
  }

  // The head after its '%'.
  function HeadText(h: Head): seq<char> {
    h.flags + (WidthsText(h.widths) + (PrecisionText(h.precision) + h.lengths))
  }

  function Written(item: Item): (s: seq<char>)
    ensures |s| > 0
  {
    match item
    case Lit(c) => [c]
    case Spec(h, c) => ['%'] + (HeadText(h) + [c])
  }

  function Format(items: seq<Item>): seq<char> {
    if items == [] then [] else Written(items[0]) + Format(items[1..])
  }

  // ---- meaning ----------------------------------------------------------------------

  function FlagsOf(flags: seq<char>, f: Flags): Flags
    decreases |flags|
  {
    if flags == [] then f else FlagsOf(flags[1..], WithFlag(flags[0], f))
  }

  datatype Sizing = Sizing(flags: Flags, width: nat, args: seq<Arg>)

  // A width replaces the one before; a negative argument asks for the left side.
  function Widened(w: Width, z: Sizing): Sizing {
    match w
    case Number(ds) => z.(width := Abs(Value(ds, 0, 10)))
    case Star =>
      var n := Int32(IntArg(z.args));
      Sizing(if n < 0 then z.flags.(left := true) else z.flags, Abs(n), Rest(z.args))
  }

  function Abs(n: int): nat {
    if n < 0 then -n else n
  }

  function WidenedAll(ws: seq<Width>, z: Sizing): Sizing
    decreases |ws|
  {
    if ws == [] then z else WidenedAll(ws[1..], Widened(ws[0], z))
  }

  function LengthOf(lengths: seq<char>, l: Length): Length
    decreases |lengths|
  {
    if lengths == [] || NextLength(lengths[0], l).None? then l else LengthOf(lengths[1..], NextLength(lengths[0], l).value)
  }

  // Flags, width and arguments in front of conversion c. A dot with a star right after it takes an argument but does
  // not take the star, which becomes the conversion.
  function Sized(h: Head, c: char, args: seq<Arg>): Sizing {
    var z := WidenedAll(h.widths, Sizing(FlagsOf(h.flags, NoFlags), 0, args));
    if h.precision == Some([]) && h.lengths == [] && c == '*' then z.(args := Rest(z.args)) else z
  }

  function Meaning(item: Item, args: seq<Arg>): seq<char> {
    match item
    case Lit(c) => [c]
    case Spec(h, c) => var z := Sized(h, c, args); ConvText(c, z.flags, z.width, LengthOf(h.lengths, Plain), z.args)
  }

  function ArgsAfter(item: Item, args: seq<Arg>): seq<Arg> {
    match item
    case Lit(c) => args
    case Spec(h, c) => ConvArgs(c, Sized(h, c, args).args)
  }

  predicate PutsNul(item: Item, args: seq<Arg>) {
    item.Spec? && item.conv == 'c' && CharArg(Sized(item.head, 'c', args).args) == NUL
  }

  function Meanings(items: seq<Item>, args: seq<Arg>): seq<char> {
    if items == [] then [] else Meaning(items[0], args) + Meanings(items[1..], ArgsAfter(items[0], args))
  }

  function ArgsLeft(items: seq<Item>, args: seq<Arg>): seq<Arg> {
    if items == [] then args else ArgsLeft(items[1..], ArgsAfter(items[0], args))
  }

  // No %c is given a NUL, which would end the output.
  predicate Clean(items: seq<Item>, args: seq<Arg>) {
    items == [] || (!PutsNul(items[0], args) && Clean(items[1..], ArgsAfter(items[0], args)))
  }

  predicate AllOk(items: seq<Item>) {
    items == [] || (ItemOk(items[0]) && AllOk(items[1..]))
  }

  // ---- text at a place -----------------------------------------------------------------

  // What stands at a place of the format.
  ghost predicate Reads(fmt: seq<char>, at: nat, s: seq<char>) {
    at + |s| <= |fmt| && fmt[at..at + |s|] == s
  }

  lemma ReadsSplit(fmt: seq<char>, at: nat, s: seq<char>, t: seq<char>)
    requires Reads(fmt, at, s + t)
    ensures Reads(fmt, at, s) && Reads(fmt, at + |s|, t)
  {
    var w := fmt[at..at + |s + t|];
    assert fmt[at..at + |s|] == w[..|s|];
    assert fmt[at + |s|..at + |s| + |t|] == w[|s|..];
  }

  lemma ReadsAt(fmt: seq<char>, at: nat, s: seq<char>, i: nat)
    requires Reads(fmt, at, s) && i < |s|
    ensures At(fmt, at + i) == s[i] && fmt[at + i] == s[i]
  {
    assert fmt[at..at + |s|][i] == fmt[at + i];
  }

  // ---- one part after the other -----------------------------------------------------------

  lemma {:induction false} FlagsPhase(fmt: seq<char>, at: nat, flags: seq<char>, f: Flags, args: seq<Arg>)
    requires Reads(fmt, at, flags) && forall i :: 0 <= i < |flags| ==> IsFlag(flags[i])
    ensures Output(fmt, State(at, InFlags(f), args)) == Output(fmt, State(at + |flags|, InFlags(FlagsOf(flags, f)), args))
    decreases |flags|
  {
    hide Output, WithFlag;
    if flags != [] {
      ReadsAt(fmt, at, flags, 0);
      assert flags == [flags[0]] + flags[1..];
      ReadsSplit(fmt, at, [flags[0]], flags[1..]);
      Silent(fmt, State(at, InFlags(f), args), State(at + 1, InFlags(WithFlag(flags[0], f)), args));
      FlagsPhase(fmt, at + 1, flags[1..], WithFlag(flags[0], f), args);
    }
  }

  lemma {:induction false} AtoiReads(fmt: seq<char>, at: nat, ds: seq<char>, n: nat)
    requires Reads(fmt, at, ds) && AllDigits(ds) && !IsDigit(At(fmt, at + |ds|))
    ensures DigitsEnd(fmt, at) == at + |ds| && Atoi(fmt, at, n) == Value(ds, n, 10)
    decreases |ds|
  {
    if ds != [] {
      ReadsAt(fmt, at, ds, 0);
      assert ds == [ds[0]] + ds[1..];
      ReadsSplit(fmt, at, [ds[0]], ds[1..]);
      AtoiReads(fmt, at + 1, ds[1..], n * 10 + DigitValue(ds[0]));
    }
  }

  // One width: a number that no digit follows, or a star.
  lemma WidthStep(fmt: seq<char>, at: nat, w: Width, z: Sizing)
    requires WidthOk(w) && Reads(fmt, at, WidthText(w)) && (w.Number? ==> !IsDigit(At(fmt, at + |w.digits|)))
    ensures var z' := Widened(w, z);
            Output(fmt, State(at, InWidth(z.flags, z.width), z.args))
            == Output(fmt, State(at + |WidthText(w)|, InWidth(z'.flags, z'.width), z'.args))
  {
    hide Output, Value, Atoi, DigitsEnd;
    ReadsAt(fmt, at, WidthText(w), 0);
    var z' := Widened(w, z);
    if w.Number? {
      AtoiReads(fmt, at, w.digits, 0);
    }
    Silent(fmt, State(at, InWidth(z.flags, z.width), z.args),
           State(at + |WidthText(w)|, InWidth(z'.flags, z'.width), z'.args));
  }

  lemma {:induction false} WidthsPhase(fmt: seq<char>, at: nat, ws: seq<Width>, z: Sizing)
    requires WidthsOk(ws) && Reads(fmt, at, WidthsText(ws))
    requires EndsInNumber(ws) ==> !IsDigit(At(fmt, at + |WidthsText(ws)|))
    ensures var z' := WidenedAll(ws, z);
            Output(fmt, State(at, InWidth(z.flags, z.width), z.args))
            == Output(fmt, State(at + |WidthsText(ws)|, InWidth(z'.flags, z'.width), z'.args))
    decreases |ws|
  {
    hide Output, Widened, Reads, StartsWidth, IsFlag, WidthOk, EndsInNumber;
    if ws != [] {
      var t, rest := WidthText(ws[0]), WidthsText(ws[1..]);
      ReadsSplit(fmt, at, t, rest);
      EndsRest(ws);
      if |ws| > 1 {
        FirstOfWidths(ws[1..]);
        ReadsAt(fmt, at + |t|, rest, 0);
      }
      WidthStep(fmt, at, ws[0], z);
      WidthsPhase(fmt, at + |t|, ws[1..], Widened(ws[0], z));
    }
  }

  lemma EndsRest(ws: seq<Width>)
    requires ws != []
    ensures if |ws| == 1 then EndsInNumber(ws) == ws[0].Number? else EndsInNumber(ws) == EndsInNumber(ws[1..])
    ensures |ws| == 1 ==> WidthsText(ws[1..]) == [] && !EndsInNumber(ws[1..])
  {
  }

  lemma FirstOfWidths(ws: seq<Width>)
    requires ws != [] && WidthsOk(ws)
    ensures WidthsText(ws) != [] && StartsWidth(WidthsText(ws)[0]) && !IsFlag(WidthsText(ws)[0])
    ensures WidthsText(ws)[0] != NUL && (ws[0].Star? ==> WidthsText(ws)[0] == '*')
  {
    assert WidthsText(ws)[0] == WidthText(ws[0])[0];
    assert ws[0].Number? ==> IsDigit(ws[0].digits[0]);
  }

  lemma {:induction false} LengthsPhase(fmt: seq<char>, at: nat, ls: seq<char>, f: Flags, w: nat, l: Length, args: seq<Arg>)
    requires Reads(fmt, at, ls) && forall i :: 0 <= i < |ls| ==> IsLength(ls[i])
    ensures Output(fmt, State(at, InLength(f, w, l), args)) == Output(fmt, State(at + |ls|, InLength(f, w, LengthOf(ls, l)), args))
    decreases |ls|
  {
    hide Output;
    if ls != [] {
      ReadsAt(fmt, at, ls, 0);
      assert ls == [ls[0]] + ls[1..];
      ReadsSplit(fmt, at, [ls[0]], ls[1..]);
      var l' := NextLength(ls[0], l).value;
      Silent(fmt, State(at, InLength(f, w, l), args), State(at + 1, InLength(f, w, l'), args));
      LengthsPhase(fmt, at + 1, ls[1..], f, w, l', args);
    }
  }

  // A character that a mode does not take is left to the next mode.
  lemma ToWidth(fmt: seq<char>, at: nat, f: Flags, args: seq<Arg>)
    requires !IsFlag(At(fmt, at)) && At(fmt, at) != NUL
    ensures Output(fmt, State(at, InFlags(f), args)) == Output(fmt, State(at, InWidth(f, 0), args))
  {
    hide Output;
    Silent(fmt, State(at, InFlags(f), args), State(at, InWidth(f, 0), args));
  }

  lemma ToPrecision(fmt: seq<char>, at: nat, f: Flags, w: nat, args: seq<Arg>)
    requires !StartsWidth(At(fmt, at)) && At(fmt, at) != NUL
    ensures Output(fmt, State(at, InWidth(f, w), args)) == Output(fmt, State(at, InPrecision(f, w), args))
  {
    hide Output;
    Silent(fmt, State(at, InWidth(f, w), args), State(at, InPrecision(f, w), args));
  }

  lemma ToLength(fmt: seq<char>, at: nat, f: Flags, w: nat, args: seq<Arg>)
    requires At(fmt, at) != '.' && At(fmt, at) != NUL
    ensures Output(fmt, State(at, InPrecision(f, w), args)) == Output(fmt, State(at, InLength(f, w, Plain), args))
  {
    hide Output;
    Silent(fmt, State(at, InPrecision(f, w), args), State(at, InLength(f, w, Plain), args));
  }

  lemma ToConv(fmt: seq<char>, at: nat, f: Flags, w: nat, l: Length, args: seq<Arg>)
    requires !IsLength(At(fmt, at)) && At(fmt, at) != NUL
    ensures Output(fmt, State(at, InLength(f, w, l), args)) == Output(fmt, State(at, InConv(f, w, l), args))
  {
    hide Output;
    Silent(fmt, State(at, InLength(f, w, l), args), State(at, InConv(f, w, l), args));
  }

  // The mode once the flags and widths are read.
  function SizedMode(h: Head, z: Sizing): Mode {
    if h.widths == [] then InFlags(z.flags) else InWidth(z.flags, z.width)
  }

  // The mode once the whole head is read.
  function LastMode(h: Head, z: Sizing): Mode {
    if h.precision.None? && h.lengths == [] then SizedMode(h, z)
    else InLength(z.flags, z.width, LengthOf(h.lengths, Plain))
  }

  function SizingOf(h: Head, args: seq<Arg>): (z: Sizing) {
    WidenedAll(h.widths, Sizing(FlagsOf(h.flags, NoFlags), 0, args))
  }

  lemma SizePhase(fmt: seq<char>, at: nat, h: Head, args: seq<Arg>)
    requires HeadOk(h) && Reads(fmt, at, h.flags + WidthsText(h.widths))
    requires EndsInNumber(h.widths) ==> !IsDigit(At(fmt, at + |h.flags| + |WidthsText(h.widths)|))
    ensures var z := SizingOf(h, args);
            Output(fmt, State(at, InFlags(NoFlags), args))
            == Output(fmt, State(at + |h.flags| + |WidthsText(h.widths)|, SizedMode(h, z), z.args))
  {
    hide Output, Reads, WidthsText, FlagsOf, IsFlag;
    var f, p := FlagsOf(h.flags, NoFlags), at + |h.flags|;
    ReadsSplit(fmt, at, h.flags, WidthsText(h.widths));
    FlagsPhase(fmt, at, h.flags, NoFlags, args);
    if h.widths == [] {
      assert WidthsText(h.widths) == [] by { NoWidths(); }
    } else {
      FirstOfWidths(h.widths);
      ReadsAt(fmt, p, WidthsText(h.widths), 0);
      ToWidth(fmt, p, f, args);
      WidthsPhase(fmt, p, h.widths, Sizing(f, 0, args));
    }
  }

  lemma NoWidths()
    ensures WidthsText([]) == []
  {
  }

  // From the mode after the widths to the precision.
  lemma FromSized(fmt: seq<char>, at: nat, h: Head, z: Sizing)
    requires h.widths == [] ==> z.width == 0
    requires AfterWidths(h, At(fmt, at)) && At(fmt, at) != NUL
    ensures Output(fmt, State(at, SizedMode(h, z), z.args)) == Output(fmt, State(at, InPrecision(z.flags, z.width), z.args))
  {
    hide Output;
    if h.widths == [] {
      ToWidth(fmt, at, z.flags, z.args);
    }
    ToPrecision(fmt, at, z.flags, z.width, z.args);
  }

  // The dot and its digits.
  lemma DotStep(fmt: seq<char>, at: nat, ds: seq<char>, f: Flags, w: nat, args: seq<Arg>)
    requires Reads(fmt, at, ['.'] + ds) && AllDigits(ds) && !IsDigit(At(fmt, at + 1 + |ds|))
    ensures Output(fmt, State(at, InPrecision(f, w), args))
         == Output(fmt, State(at + 1 + |ds|, InLength(f, w, Plain),
                              if ds == [] && At(fmt, at + 1) == '*' then Rest(args) else args))
  {
    hide Output, DigitsEnd, Atoi;
    ReadsAt(fmt, at, ['.'] + ds, 0);
    ReadsSplit(fmt, at, ['.'], ds);
    AtoiReads(fmt, at + 1, ds, 0);
    if ds != [] {
      ReadsAt(fmt, at + 1, ds, 0);
    }
    Silent(fmt, State(at, InPrecision(f, w), args),
           State(at + 1 + |ds|, InLength(f, w, Plain), if ds == [] && At(fmt, at + 1) == '*' then Rest(args) else args));
  }

  lemma Assoc(a: seq<char>, b: seq<char>, c: seq<char>)
    ensures a + (b + c) == (a + b) + c
  {
  }

  lemma Grouped(a: seq<char>, b: seq<char>, c: seq<char>, d: seq<char>)
    ensures a + (b + (c + d)) == (a + b) + (c + d)
  {
  }

  // Where the parts of a head stand.
  lemma PartsAt(fmt: seq<char>, at: nat, h: Head)
    requires Reads(fmt, at, HeadText(h))
    ensures var p2 := at + |h.flags| + |WidthsText(h.widths)|;
            var p3 := p2 + |PrecisionText(h.precision)|;
            && Reads(fmt, at, h.flags + WidthsText(h.widths))
            && Reads(fmt, p2, PrecisionText(h.precision)) && Reads(fmt, p3, h.lengths)
            && p3 + |h.lengths| == at + |HeadText(h)|
  {
    hide Reads, WidthsText, PrecisionText;
    var ws, ps := WidthsText(h.widths), PrecisionText(h.precision);
    Grouped(h.flags, ws, ps, h.lengths);
    ReadsSplit(fmt, at, h.flags + ws, ps + h.lengths);
    ReadsSplit(fmt, at + |h.flags| + |ws|, ps, h.lengths);
  }

  // A dot and a length modifier continue no part before them.
  lemma PartsApart(h: Head, c: char)
    ensures c == '.' || IsLength(c) ==> AfterWidths(h, c)
    ensures IsLength(c) ==> AfterPrecision(h, c)
  {
  }

  // What can stand after each part of a head that a given character follows.
  lemma NextChars(fmt: seq<char>, at: nat, h: Head)
    requires HeadOk(h) && Reads(fmt, at, HeadText(h)) && Follows(h, At(fmt, at + |HeadText(h)|))
    ensures var p2 := at + |h.flags| + |WidthsText(h.widths)|;
            var p3 := p2 + |PrecisionText(h.precision)|;
            && AfterWidths(h, At(fmt, p2)) && AfterPrecision(h, At(fmt, p3))
            && (h.precision.Some? ==> At(fmt, p2) == '.')
            && (h.lengths != [] ==> IsLength(At(fmt, p3)))
  {
    hide Reads, WidthsText, HeadText, AfterWidths, WidthsOk, AllDigits;
    PartsAt(fmt, at, h);
    var p2 := at + |h.flags| + |WidthsText(h.widths)|;
    var p3 := p2 + |PrecisionText(h.precision)|;
    if h.precision.Some? {
      ReadsAt(fmt, p2, PrecisionText(h.precision), 0);
    }
    if h.lengths != [] {
      ReadsAt(fmt, p3, h.lengths, 0);
    }
    PartsApart(h, At(fmt, p2));
    PartsApart(h, At(fmt, p3));
  }

  lemma ZeroWidth(h: Head, args: seq<Arg>)
    requires h.widths == []
    ensures SizingOf(h, args).width == 0
  {
  }

  // A head whole: the machine stands at its end, in the mode of its last part.
  lemma HeadPhase(fmt: seq<char>, at: nat, h: Head, args: seq<Arg>)
    requires HeadOk(h) && Reads(fmt, at, HeadText(h)) && Follows(h, At(fmt, at + |HeadText(h)|))
    ensures var end := at + |HeadText(h)|; var z := Sized(h, At(fmt, end), args);
            Output(fmt, State(at, InFlags(NoFlags), args)) == Output(fmt, State(end, LastMode(h, z), z.args))
  {
    hide Output, Reads, WidthsText, WidenedAll, FlagsOf, HeadText, AfterWidths, LengthOf, IsDigit;
    PartsAt(fmt, at, h);
    NextChars(fmt, at, h);
    AfterIsNoDigit(fmt, at, h);
    SizePhase(fmt, at, h, args);
    var z0 := SizingOf(h, args);
    var p2 := at + |h.flags| + |WidthsText(h.widths)|;
    var p3 := p2 + |PrecisionText(h.precision)|;
    if h.widths == [] {
      ZeroWidth(h, args);
    }
    var z := Sized(h, At(fmt, at + |HeadText(h)|), args);
    if h.precision.Some? {
      FromSized(fmt, p2, h, z0);
      DotStep(fmt, p2, h.precision.value, z.flags, z.width, z0.args);
      LengthsPhase(fmt, p3, h.lengths, z.flags, z.width, Plain, z.args);
    } else if h.lengths != [] {
      FromSized(fmt, p3, h, z0);
      ToLength(fmt, p3, z.flags, z.width, z.args);
      LengthsPhase(fmt, p3, h.lengths, z.flags, z.width, Plain, z.args);
    }
  }

  lemma AfterIsNoDigit(fmt: seq<char>, at: nat, h: Head)
    requires AfterWidths(h, At(fmt, at + |h.flags| + |WidthsText(h.widths)|))
    ensures EndsInNumber(h.widths) ==> !IsDigit(At(fmt, at + |h.flags| + |WidthsText(h.widths)|))
  {
  }

  // A conversion follows the head.
  lemma FromLast(fmt: seq<char>, at: nat, h: Head, z: Sizing)
    requires Follows(h, At(fmt, at)) && At(fmt, at) != NUL && (h.widths == [] ==> z.width == 0)
    ensures Output(fmt, State(at, LastMode(h, z), z.args))
         == Output(fmt, State(at, InConv(z.flags, z.width, LengthOf(h.lengths, Plain)), z.args))
  {
    hide Output, AfterWidths;
    if h.precision.None? && h.lengths == [] {
      FromSized(fmt, at, h, z);
      ToLength(fmt, at, z.flags, z.width, z.args);
    }
    ToConv(fmt, at, z.flags, z.width, LengthOf(h.lengths, Plain), z.args);
  }

  lemma ConvStep(fmt: seq<char>, at: nat, f: Flags, w: nat, l: Length, c: char, args: seq<Arg>)
    requires At(fmt, at) == c && c != NUL && !(c == 'c' && CharArg(args) == NUL)
    ensures Output(fmt, State(at, InConv(f, w, l), args))
         == ConvText(c, f, w, l, args) + Output(fmt, State(at + 1, Text, ConvArgs(c, args)))
  {
    hide ConvText, ConvArgs, CharArg;
  }

  lemma SpecOutput(fmt: seq<char>, at: nat, h: Head, c: char, args: seq<Arg>)
    requires ItemOk(Spec(h, c)) && !PutsNul(Spec(h, c), args) && Reads(fmt, at, HeadText(h) + [c])
    ensures Output(fmt, State(at, InFlags(NoFlags), args))
         == Meaning(Spec(h, c), args) + Output(fmt, State(at + |HeadText(h)| + 1, Text, ArgsAfter(Spec(h, c), args)))
  {
    hide Output, Reads, HeadText, HeadOk, Follows, Sized, LastMode, LengthOf, ConvText, ConvArgs, CharArg;
    var end := at + |HeadText(h)|;
    ReadsSplit(fmt, at, HeadText(h), [c]);
    ReadsAt(fmt, end, [c], 0);
    HeadPhase(fmt, at, h, args);
    var z := Sized(h, c, args);
    SizedZero(h, c, args);
    FromLast(fmt, end, h, z);
    ConvStep(fmt, end, z.flags, z.width, LengthOf(h.lengths, Plain), c, z.args);
  }

  lemma SizedZero(h: Head, c: char, args: seq<Arg>)
    ensures h.widths == [] ==> Sized(h, c, args).width == 0
  {
  }

  lemma ItemOutput(fmt: seq<char>, at: nat, item: Item, args: seq<Arg>)
    requires ItemOk(item) && !PutsNul(item, args) && Reads(fmt, at, Written(item))
    ensures Output(fmt, State(at, Text, args))
         == Meaning(item, args) + Output(fmt, State(at + |Written(item)|, Text, ArgsAfter(item, args)))
  {
    hide Output, Reads, HeadText, HeadOk, Follows, Sized, PutsNul, ConvText, ConvArgs;
    ReadsAt(fmt, at, Written(item), 0);
    TextPhase(fmt, at, args);
    if item.Spec? {
      ReadsSplit(fmt, at, ['%'], HeadText(item.head) + [item.conv]);
      hide Meaning, ArgsAfter;
      SpecOutput(fmt, at + 1, item.head, item.conv, args);
    }
  }

  /** Complete directives put what they stand for, in order, whatever comes after them. */
  lemma {:induction false} OutputMeaning(items: seq<Item>, fmt: seq<char>, at: nat, tail: seq<char>, args: seq<Arg>)
    requires AllOk(items) && Clean(items, args) && at <= |fmt| && fmt[at..] == Format(items) + tail
    ensures Output(fmt, State(at, Text, args))
         == Meanings(items, args) + Output(fmt, State(|fmt| - |tail|, Text, ArgsLeft(items, args)))
    decreases |items|
  {
    hide Output, Meaning, ArgsAfter, ItemOk, PutsNul, Written;
    if items == [] {
      assert [] + tail == tail;
    } else {
      var w, rest := Written(items[0]), Format(items[1..]);
      assert fmt[at..] == w + (rest + tail);
      assert Reads(fmt, at, w + (rest + tail));
      ReadsSplit(fmt, at, w, rest + tail);
      ItemOutput(fmt, at, items[0], args);
      assert fmt[at + |w|..] == rest + tail;
      OutputMeaning(items[1..], fmt, at + |w|, tail, ArgsAfter(items[0], args));
    }
  }

  // ---- complete and unfinished formats ---------------------------------------------------------

  // What may come after the last complete directive: nothing, or a directive without its conversion.
  function TailText(tail: Option<Head>): seq<char> {
    if tail.Some? then ['%'] + HeadText(tail.value) else []
  }

  predicate TailOk(tail: Option<Head>) {
    tail.Some? ==> HeadOk(tail.value)
  }

  // At the end of the format every mode within a directive stops and puts nothing.
  lemma CutAt(fmt: seq<char>, s: State)
    requires s.at >= |fmt| && !s.mode.Text? && !s.mode.InConv?
    ensures Output(fmt, s) == []
  {
  }

  lemma TailOutput(fmt: seq<char>, at: nat, tail: Option<Head>, args: seq<Arg>)
    requires at <= |fmt| && fmt[at..] == TailText(tail) && TailOk(tail)
    ensures Output(fmt, State(at, Text, args)) == if tail.None? then [NUL] else []
  {
    hide Output, HeadText, HeadOk;
    TextPhase(fmt, at, args);
    if tail.Some? {
      CutOutput(fmt, at, tail.value, args);
    }
  }

  // A directive cut short by the end of the format puts nothing.
  lemma CutOutput(fmt: seq<char>, at: nat, h: Head, args: seq<Arg>)
    requires at <= |fmt| && fmt[at..] == ['%'] + HeadText(h) && HeadOk(h)
    ensures Output(fmt, State(at, Text, args)) == []
  {
    hide Output, HeadText, HeadOk, Sized, LastMode, Reads, Follows;
    TextPhase(fmt, at, args);
    CutReads(fmt, at, HeadText(h));
    NulFollows(h);
    HeadPhase(fmt, at + 1, h, args);
    var z := Sized(h, NUL, args);
    InDirective(h, z);
    CutAt(fmt, State(|fmt|, LastMode(h, z), z.args));
  }

  lemma InDirective(h: Head, z: Sizing)
    ensures !LastMode(h, z).Text? && !LastMode(h, z).InConv?
  {
  }

  lemma CutReads(fmt: seq<char>, at: nat, t: seq<char>)
    requires at <= |fmt| && fmt[at..] == ['%'] + t
    ensures Vsnprintf.At(fmt, at) == '%' && Reads(fmt, at + 1, t) && at + 1 + |t| == |fmt|
  {
    assert Reads(fmt, at, ['%'] + t);
    ReadsAt(fmt, at, ['%'] + t, 0);
    ReadsSplit(fmt, at, ['%'], t);
  }

  lemma NulFollows(h: Head)
    ensures Follows(h, NUL)
  {
  }

  /** A terminator is put exactly when no directive is cut short. */
  lemma FormatOutput(items: seq<Item>, tail: Option<Head>, args: seq<Arg>)
    requires AllOk(items) && TailOk(tail) && Clean(items, args)
    ensures Output(Format(items) + TailText(tail), Start(args))
         == Meanings(items, args) + if tail.None? then [NUL] else []
  {
    hide Output, Clean, Meanings, AllOk, TailOk, Format, TailText, ArgsLeft;
    var t := TailText(tail);
    var fmt := Format(items) + t;
    assert fmt[0..] == fmt;
    OutputMeaning(items, fmt, 0, t, args);
    assert fmt[|fmt| - |t|..] == t;
    TailOutput(fmt, |fmt| - |t|, tail, ArgsLeft(items, args));
  }

  /** Truncation: for a complete format the buffer holds the first characters of the text, as many as leave room for
      the terminator, and the terminator. */
  lemma Truncated(items: seq<Item>, args: seq<Arg>, buf: seq<char>, size: nat)
    requires AllOk(items) && Clean(items, args) && size > 0 && Leaves(buf, size, Output(Format(items), Start(args)))
    ensures var text := Meanings(items, args);
            var k := if |text| < size then |text| else size - 1;
            buf[..k + 1] == text[..k] + [NUL]
  {
    hide Output, Meanings, Clean, Format, AllOk;
    assert Format(items) + TailText(None) == Format(items);
    FormatOutput(items, None, args);
  }

  // ---- every format -------------------------------------------------------------------------------

  lemma {:induction false} TakeFlags(fmt: seq<char>, at: nat) returns (end: nat)
    requires at <= |fmt|
    ensures at <= end <= |fmt| && !IsFlag(At(fmt, end)) && forall i :: at <= i < end ==> IsFlag(fmt[i])
    decreases |fmt| - at
  {
    end := at;
    if IsFlag(At(fmt, at)) {
      end := TakeFlags(fmt, at + 1);
    }
  }

  lemma {:induction false} TakeLengths(fmt: seq<char>, at: nat) returns (end: nat)
    requires at <= |fmt|
    ensures at <= end <= |fmt| && !IsLength(At(fmt, end)) && forall i :: at <= i < end ==> IsLength(fmt[i])
    decreases |fmt| - at
  {
    end := at;
    if IsLength(At(fmt, at)) {
      end := TakeLengths(fmt, at + 1);
    }
  }

  lemma {:induction false} DigitsAre(fmt: seq<char>, at: nat)
    requires at <= |fmt|
    ensures !IsDigit(At(fmt, DigitsEnd(fmt, at))) && AllDigits(fmt[at..DigitsEnd(fmt, at)])
    decreases |fmt| - at
  {
    if at < |fmt| && IsDigit(fmt[at]) {
      DigitsAre(fmt, at + 1);
      assert fmt[at..DigitsEnd(fmt, at)] == [fmt[at]] + fmt[at + 1..DigitsEnd(fmt, at)];
    }
  }

  lemma {:induction false} TakeWidths(fmt: seq<char>, at: nat) returns (ws: seq<Width>, end: nat)
    requires at <= |fmt|
    ensures at <= end <= |fmt| && fmt[at..end] == WidthsText(ws) && WidthsOk(ws)
    ensures !StartsWidth(At(fmt, end)) && (EndsInNumber(ws) ==> !IsDigit(At(fmt, end)))
    ensures ws != [] && ws[0].Number? ==> IsDigit(At(fmt, at))
    ensures ws == [] ==> end == at
    decreases |fmt| - at
  {
    ws, end := [], at;
    if StartsWidth(At(fmt, at)) {
      var w, p;
      if fmt[at] == '*' {
        w, p := Star, at + 1;
      } else {
        DigitsAre(fmt, at);
        p := DigitsEnd(fmt, at);
        w := Number(fmt[at..p]);
      }
      assert fmt[at..p] == WidthText(w) && WidthOk(w) by { hide DigitsEnd; }
      var rest;
      rest, end := TakeWidths(fmt, p);
      ws := [w] + rest;
      assert ws[1..] == rest;
      assert fmt[at..end] == fmt[at..p] + fmt[p..end];
      hide DigitsEnd, StartsWidth, AllDigits;
    }
  }

  lemma TakePrecision(fmt: seq<char>, at: nat) returns (p: Option<seq<char>>, end: nat)
    requires at <= |fmt|
    ensures at <= end <= |fmt| && fmt[at..end] == PrecisionText(p)
    ensures if p.Some? then AllDigits(p.value) && !IsDigit(At(fmt, end)) else end == at && At(fmt, at) != '.'
  {
    p, end := None, at;
    if At(fmt, at) == '.' {
      DigitsAre(fmt, at + 1);
      end := DigitsEnd(fmt, at + 1);
      p := Some(fmt[at + 1..end]);
      hide DigitsEnd, AllDigits, IsDigit;
      assert fmt[at..end] == [fmt[at]] + fmt[at + 1..end];
    }
  }

  lemma Pieces(fmt: seq<char>, a: nat, b: nat, c: nat, d: nat, e: nat)
    requires a <= b <= c <= d <= e <= |fmt|
    ensures fmt[a..e] == fmt[a..b] + (fmt[b..c] + (fmt[c..d] + fmt[d..e]))
  {
    assert fmt[c..e] == fmt[c..d] + fmt[d..e];
    assert fmt[b..e] == fmt[b..c] + fmt[c..e];
  }

  // The longest head at a place.
  lemma TakeHead(fmt: seq<char>, at: nat) returns (h: Head, end: nat)
    requires at <= |fmt|
    ensures at <= end <= |fmt| && fmt[at..end] == HeadText(h) && HeadOk(h) && Follows(h, At(fmt, end))
  {
    hide WidthsOk, WidthsText, AllDigits, PrecisionText, EndsInNumber, StartsWidth, IsFlag, IsLength;
    var p1 := TakeFlags(fmt, at);
    var ws, p2 := TakeWidths(fmt, p1);
    var precision, p3 := TakePrecision(fmt, p2);
    end := TakeLengths(fmt, p3);
    h := Head(fmt[at..p1], ws, precision, fmt[p3..end]);
    Pieces(fmt, at, p1, p2, p3, end);
    if h.lengths == [] {
      assert end == p3;
    }
  }

  // The first directive of a format, or the one that is cut short.
  lemma TakeItem(fmt: seq<char>) returns (item: Item, n: nat, tail: Option<Head>)
    requires NUL !in fmt && fmt != []
    ensures TailOk(tail)
    ensures if tail.Some? then fmt == TailText(tail) else 0 < n <= |fmt| && fmt[..n] == Written(item) && ItemOk(item)
  {
    assert fmt[0] in fmt;
    item, n, tail := Lit(fmt[0]), 1, None;
    if fmt[0] == '%' {
      var h, end := TakeHead(fmt, 1);
      hide HeadText, HeadOk, Follows;
      assert fmt == ['%'] + fmt[1..];
      if end == |fmt| {
        assert fmt[1..end] == fmt[1..];
        tail := Some(h);
      } else {
        assert fmt[end] in fmt;
        item, n := Spec(h, fmt[end]), end + 1;
        assert fmt[..n] == ['%'] + (fmt[1..end] + [fmt[end]]);
      }
    }
  }

  /** Every format without a NUL in it is a row of complete directives and at most one that is cut short. */
  lemma {:induction false} Decompose(fmt: seq<char>) returns (items: seq<Item>, tail: Option<Head>)
    requires NUL !in fmt
    ensures fmt == Format(items) + TailText(tail) && AllOk(items) && TailOk(tail)
    decreases |fmt|
  {
    items, tail := [], None;
    if fmt != [] {
      var item, n;
      item, n, tail := TakeItem(fmt);
      hide Written, ItemOk, TailOk, TailText;
      if tail.None? {
        var rest;
        rest, tail := Decompose(fmt[n..]);
        items := [item] + rest;
        FormatCons(item, rest);
        hide Format, AllOk;
        assert fmt == fmt[..n] + fmt[n..];
        Assoc(fmt[..n], Format(rest), TailText(tail));
      }
    }
  }

  lemma FormatCons(item: Item, rest: seq<Item>)
    ensures Format([item] + rest) == Written(item) + Format(rest)
    ensures AllOk([item] + rest) <==> ItemOk(item) && AllOk(rest)
  {
    hide Written, ItemOk;
    assert ([item] + rest)[1..] == rest;
  }

  /** The exact condition: the result is the length of the text if and only if the format does not end within a
      directive, and one less if it does. */
  lemma EveryFormat(fmt: seq<char>, args: seq<Arg>) returns (items: seq<Item>, tail: Option<Head>)
    requires NUL !in fmt
    ensures fmt == Format(items) + TailText(tail) && AllOk(items) && TailOk(tail)
    ensures Clean(items, args) ==>
              Output(fmt, Start(args)) == Meanings(items, args) + if tail.None? then [NUL] else []
  {
    hide Output, Clean, Meanings, AllOk, TailOk, Format, TailText;
    items, tail := Decompose(fmt);
    if Clean(items, args) {
      FormatOutput(items, tail, args);
    }
  }

  /** A width written as a number is that number. */
  lemma FixedWidth(n: nat, z: Sizing)
    requires n > 0
    ensures WidthOk(Number(Digits(n, 10, true))) && Widened(Number(Digits(n, 10, true)), z) == z.(width := n)
  {
    DecimalDigits(n);
    DigitsValue(n, 10, true);
  }
}
