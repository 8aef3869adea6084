/**
vsnprintf: a state machine over the format string, given as a function of its state
and as the loop that runs it on a buffer.
*/
module Vsnprintf {
  import opened Wrappers
  import opened Numerals
  import opened Conversions

  // An argument: an integer, of the size it is read with, or a string pointer.
  datatype Arg = Int(v: int) | Str(s: Option<seq<char>>)

  datatype Length = Plain | Char | Short | Long | LongLong | Double

  datatype Mode =
    | Text
    | InFlags(flags: Flags)
    | InWidth(flags: Flags, width: nat)
    | InPrecision(flags: Flags, width: nat)
    | InLength(flags: Flags, width: nat, length: Length)
    | InConv(flags: Flags, width: nat, length: Length)

  function Rank(m: Mode): nat {
    match m
    case InFlags(_) => 5
    case InWidth(_, _) => 4
    case InPrecision(_, _) => 3
    case InLength(_, _, _) => 2
    case InConv(_, _, _) => 1
    case Text => 0
  }

  datatype State = State(at: nat, mode: Mode, args: seq<Arg>)

  // ---- arguments ------------------------------------------------------------------

  function Int32(v: int): int {
    if v % WORD < 0x8000_0000 then v % WORD else v % WORD - WORD
  }

  function Int64(v: int): int {
    var w := v % 0x1_0000_0000_0000_0000;
    if w < 0x8000_0000_0000_0000 then w else w - 0x1_0000_0000_0000_0000
  }

  function IntArg(args: seq<Arg>): int {
    if args != [] && args[0].Int? then args[0].v else 0
  }

  function CStr(s: seq<char>): seq<char> {
    if s == [] || s[0] == NUL then [] else [s[0]] + CStr(s[1..])
  }

  function StrArg(args: seq<Arg>): seq<char> {
    if args != [] && args[0].Str? && args[0].s.Some? then CStr(args[0].s.value) else "(null)"
  }

  function CharArg(args: seq<Arg>): char {
    (IntArg(args) % 256) as char
  }

  function Rest(args: seq<Arg>): seq<Arg> {
    if args == [] then [] else args[1..]
  }

  // ---- one conversion ------------------------------------------------------------------

  predicate IsInt(c: char) {
    c == 'd' || c == 'i' || c == 'o' || c == 'b' || c == 'u' || c == 'x' || c == 'X'
  }

  predicate IsSigned(c: char) {
    c == 'd' || c == 'i'
  }

  function BaseOf(c: char): (b: nat)
    ensures BaseOk(b)
  {
    if c == 'x' || c == 'X' || c == 'p' then 16 else if c == 'o' then 8 else if c == 'b' then 2 else 10
  }

  // The size an integer argument is read with: 'h' selects 64 bits as 'll' and 'L' do.
  function NumberOf(c: char, length: Length, v: int): int {
    if length == Long then Int32(v)
    else if length == LongLong || length == Double || length == Char then Int64(v)
    else if IsSigned(c) then Int32(v)
    else v % WORD
  }

  function FlagsFor(c: char, flags: Flags): Flags {
    flags.(signed := flags.signed || IsSigned(c), small := flags.small || c == 'x' || c == 'p',
    alternate := flags.alternate || c == 'p')
  }

  // What a conversion puts.
  function ConvText(c: char, flags: Flags, width: nat, length: Length, args: seq<Arg>): seq<char> {
    if IsInt(c) then IntText(NumberOf(c, length, IntArg(args)), BaseOf(c), width, FlagsFor(c, flags))
    else if c == 'p' then IntText(IntArg(args) % WORD, 16, width, FlagsFor(c, flags))
    else if c == 's' then Field(StrArg(args), width, flags.left)
    else if c == 'c' then Field([CharArg(args)], width, flags.left)
    else if c == '%' then ['%']
    else ['%', c]
  }

  function ConvArgs(c: char, args: seq<Arg>): seq<Arg> {
    if IsInt(c) || c == 'p' || c == 's' || c == 'c' then Rest(args) else args
  }

  // ---- the machine ---------------------------------------------------------------------------

  function At(fmt: seq<char>, i: nat): (c: char)
    ensures i >= |fmt| ==> c == NUL
  {
    if i < |fmt| then fmt[i] else NUL
  }

  predicate IsFlag(c: char) {
    c == '#' || c == '0' || c == '-' || c == ' ' || c == '+' || c == '\'' || c == 'I'
  }

  function WithFlag(c: char, f: Flags): Flags {
    match c
    case '#' => f.(alternate := true)
    case '0' => f.(zeroPad := true)
    case '-' => f.(left := true)
    case ' ' => f.(space := true)
    case '+' => f.(plus := true)
    case _ => f
  }

  // get_atoi: the end of the digits at i, and their value.
  function DigitsEnd(fmt: seq<char>, i: nat): (e: nat)
    ensures i <= e && (i <= |fmt| ==> e <= |fmt|)
    ensures i < |fmt| && IsDigit(fmt[i]) ==> e > i
    decreases |fmt| - i
  {
    if i < |fmt| && IsDigit(fmt[i]) then DigitsEnd(fmt, i + 1) else i
  }

  function Atoi(fmt: seq<char>, i: nat, n: nat): nat
    decreases |fmt| - i
  {
    if i < |fmt| && IsDigit(fmt[i]) then Atoi(fmt, i + 1, n * 10 + DigitValue(fmt[i])) else n
  }

  function NextLength(c: char, l: Length): Option<Length> {
    match c
    case 'h' => Some(if l == Char then Short else Char)
    case 'l' => Some(if l == Long then LongLong else Long)
    case 'L' => Some(Double)
    case _ => None
  }

  datatype Move = Move(next: State, put: seq<char>, stop: bool)

  function StarWidth(s: State): (m: Mode)
    requires s.mode.InWidth?
    ensures m.InWidth?
  {
    var w := Int32(IntArg(s.args));
    if w < 0 then InWidth(s.mode.flags.(left := true), -w) else InWidth(s.mode.flags, w)
  }

  function AfterDot(fmt: seq<char>, s: State): State
    requires s.mode.InPrecision?
  {
    var m := InLength(s.mode.flags, s.mode.width, Plain);
    if IsDigit(At(fmt, s.at + 1)) then State(DigitsEnd(fmt, s.at + 1), m, s.args)
    else if At(fmt, s.at + 1) == '*' then State(s.at + 1, m, Rest(s.args))
    else State(s.at + 1, m, s.args)
  }

  // One turn of the loop.
  function Step(fmt: seq<char>, s: State): (m: Move)
    ensures !m.stop ==> s.at < |fmt|
    ensures !m.stop ==> s.at < m.next.at <= |fmt| || (m.next.at == s.at && Rank(m.next.mode) < Rank(s.mode))
  {
    var c := At(fmt, s.at);
    match s.mode
    case Text =>
      if c == '%' then Move(State(s.at + 1, InFlags(NoFlags), s.args), [], false)
      else Move(State(s.at + 1, Text, s.args), [c], c == NUL)
    case InFlags(f) =>
      if IsFlag(c) then Move(State(s.at + 1, InFlags(WithFlag(c, f)), s.args), [], false)
      else Move(s.(mode := InWidth(f, 0)), [], c == NUL)
    case InWidth(f, w) =>
      if c == '*' then Move(State(s.at + 1, StarWidth(s), Rest(s.args)), [], false)
      else if IsDigit(c) && c > '0' then
        Move(State(DigitsEnd(fmt, s.at), InWidth(f, Atoi(fmt, s.at, 0)), s.args), [], false)
      else Move(s.(mode := InPrecision(f, w)), [], c == NUL)
    case InPrecision(f, w) =>
      if c == '.' then Move(AfterDot(fmt, s), [], false)
      else Move(s.(mode := InLength(f, w, Plain)), [], c == NUL)
    case InLength(f, w, l) =>
      if NextLength(c, l).Some? then Move(State(s.at + 1, InLength(f, w, NextLength(c, l).value), s.args), [], false)
      else Move(s.(mode := InConv(f, w, l)), [], c == NUL)
    case InConv(f, w, l) =>
      Move(State(s.at + 1, Text, ConvArgs(c, s.args)), ConvText(c, f, w, l, s.args),
           c == NUL || (c == 'c' && CharArg(s.args) == NUL))
  }

  // Everything put from state s on, the terminator included.
  function Output(fmt: seq<char>, s: State): seq<char>
    decreases if s.at <= |fmt| then |fmt| - s.at else 0, Rank(s.mode)
  {
    var m := Step(fmt, s);
    if m.stop then m.put else m.put + Output(fmt, m.next)
  }

  function Start(args: seq<Arg>): State {
    State(0, Text, args)
  }

  // ---- single turns ------------------------------------------------------------------------------

  // A turn of the loop that puts nothing.
  lemma Silent(fmt: seq<char>, s: State, s': State)
    requires Step(fmt, s) == Move(s', [], false)
    ensures Output(fmt, s) == Output(fmt, s')
  {
    hide Step;
    assert [] + Output(fmt, s') == Output(fmt, s');
  }

  lemma TextPhase(fmt: seq<char>, at: nat, args: seq<Arg>)
    ensures At(fmt, at) == '%' ==>
              Output(fmt, State(at, Text, args)) == Output(fmt, State(at + 1, InFlags(NoFlags), args))
    ensures At(fmt, at) == NUL ==> Output(fmt, State(at, Text, args)) == [NUL]
    ensures At(fmt, at) != '%' && At(fmt, at) != NUL ==>
              Output(fmt, State(at, Text, args)) == [At(fmt, at)] + Output(fmt, State(at + 1, Text, args))
  {
  }

  // ---- the loop ------------------------------------------------------------------------------------

  // What vsnprintf leaves in a buffer of size characters when `out` is all it put.
  ghost predicate Leaves(buf: seq<char>, size: nat, out: seq<char>) {
    size <= |buf| &&
    (size > 0 ==>
       var k := if 0 < |out| <= size then |out| - 1 else size - 1;
       buf[k] == NUL && forall i :: 0 <= i < k && i < |out| ==> buf[i] == out[i])
  }

  method GetAtoi(fmt: seq<char>, at: nat) returns (n: nat, end: nat)
    ensures n == Atoi(fmt, at, 0) && end == DigitsEnd(fmt, at)
  {
    n, end := 0, at;
    while IsDigit(At(fmt, end))
      invariant at <= end && Atoi(fmt, end, n) == Atoi(fmt, at, 0) && DigitsEnd(fmt, end) == DigitsEnd(fmt, at)
      decreases |fmt| - end
    {
      n := n * 10 + DigitValue(fmt[end]);
      end := end + 1;
    }
  }

  method Convert(sink: Sink, c: char, flags: Flags, width: nat, length: Length, args: seq<Arg>)
    returns (rest: seq<Arg>, last: char)
    requires sink.Valid()
    modifies sink`pos, sink`text, sink.buf
    ensures sink.Valid() && sink.text == old(sink.text) + ConvText(c, flags, width, length, args)
    ensures rest == ConvArgs(c, args) && last == (if c == 'c' then CharArg(args) else c)
    ensures forall i :: sink.max <= i < sink.buf.Length ==> sink.buf[i] == old(sink.buf[i])
  {
    hide IntText, Field, Int32, Int64;
    rest, last := args, c;
    if IsInt(c) {
      var num := NumberOf(c, length, IntArg(args));
      sink.FmtInt(num, BaseOf(c), width, FlagsFor(c, flags));
      rest := Rest(args);
    } else if c == 'p' {
      sink.FmtInt(IntArg(args) % WORD, 16, width, FlagsFor(c, flags));
      rest := Rest(args);
    } else if c == 's' {
      sink.FmtStr(StrArg(args), width, flags);
      rest := Rest(args);
    } else if c == 'c' {
      last := CharArg(args);
      sink.FmtStr([last], width, flags);
      rest := Rest(args);
    } else if c == '%' {
      sink.Putc(c);
    } else {
      sink.Putc('%');
      sink.Putc(c);
    }
  }

  // One turn of the loop.
  method Turn(sink: Sink, fmt: seq<char>, s: State) returns (s': State, stop: bool)
    requires sink.Valid()
    modifies sink`pos, sink`text, sink.buf
    ensures sink.Valid() && s' == Step(fmt, s).next && stop == Step(fmt, s).stop
    ensures sink.text == old(sink.text) + Step(fmt, s).put
    ensures forall i :: sink.max <= i < sink.buf.Length ==> sink.buf[i] == old(sink.buf[i])
  {
    hide ConvText, ConvArgs, Int32, Atoi, DigitsEnd, WithFlag, CharArg;
    var c := At(fmt, s.at);
    s' := s;
    match s.mode {
      case Text =>
        s' := s'.(at := s.at + 1);
        if c == '%' {
          s' := s'.(mode := InFlags(NoFlags));
        } else {
          sink.Putc(c);
        }
      case InFlags(f) =>
        if IsFlag(c) {
          s' := s'.(at := s.at + 1, mode := InFlags(WithFlag(c, f)));
        } else {
          s' := s'.(mode := InWidth(f, 0));
        }
      case InWidth(f, w) =>
        if c == '*' {
          var width := Int32(IntArg(s.args));
          s' := State(s.at + 1, if width < 0 then InWidth(f.(left := true), -width) else InWidth(f, width), Rest(s.args));
        } else if IsDigit(c) && c > '0' {
          var width, end := GetAtoi(fmt, s.at);
          s' := s'.(at := end, mode := InWidth(f, width));
        } else {
          s' := s'.(mode := InPrecision(f, w));
        }
      case InPrecision(f, w) =>
        s' := s'.(mode := InLength(f, w, Plain));
        if c == '.' {
          s' := s'.(at := s.at + 1);
          if IsDigit(At(fmt, s.at + 1)) {
            var _, end := GetAtoi(fmt, s.at + 1);
            s' := s'.(at := end);
          } else if At(fmt, s.at + 1) == '*' {
            s' := s'.(args := Rest(s.args));
          }
        }
      case InLength(f, w, l) =>
        var next := NextLength(c, l);
        if next.Some? {
          s' := s'.(at := s.at + 1, mode := InLength(f, w, next.value));
        } else {
          s' := s'.(mode := InConv(f, w, l));
        }
      case InConv(f, w, l) =>
        var rest;
        rest, c := Convert(sink, c, f, w, l, s.args);
        s' := State(s.at + 1, Text, rest);
    }
    stop := c == NUL;
  }

  // The loop over the format.
  method PutAll(sink: Sink, fmt: seq<char>, args: seq<Arg>)
    requires sink.Valid() && sink.text == []
    modifies sink`pos, sink`text, sink.buf
    ensures sink.Valid() && sink.text == Output(fmt, Start(args))
    ensures forall i :: sink.max <= i < sink.buf.Length ==> sink.buf[i] == old(sink.buf[i])
  {
    hide Step, ConvText;
    var s, stop := Start(args), false;
    while !stop
      invariant sink.Valid()
      invariant sink.text + (if stop then [] else Output(fmt, s)) == Output(fmt, Start(args))
      invariant forall i :: sink.max <= i < sink.buf.Length ==> sink.buf[i] == old(sink.buf[i])
      decreases !stop, if s.at <= |fmt| then |fmt| - s.at else 0, Rank(s.mode)
    {
      s, stop := Turn(sink, fmt, s);
    }
  }

  /** Only characters below size are written; the result is one less than the number of characters put, however many
      of them fit. */
  method Vsnprintf(buf: array?<char>, size: nat, fmt: seq<char>, args: seq<Arg>) returns (r: int)
    requires buf != null ==> size <= buf.Length
    modifies buf
    ensures r == |Output(fmt, Start(args))| - 1
    ensures buf != null ==> Leaves(buf[..], size, Output(fmt, Start(args)))
    ensures buf != null ==> forall i :: size <= i < buf.Length ==> buf[i] == old(buf[i])
  {
    hide Output;
    var to := buf;
    var limit := size;
    if to == null {
      to := new char[0];
      limit := 0;
    }
    var sink := new Sink(to, limit);
    PutAll(sink, fmt, args);
    r := sink.pos - 1;
    if 0 <= r < limit {
      to[r] := NUL;
    } else if limit > 0 {
      to[limit - 1] := NUL;
    }
  }
}
