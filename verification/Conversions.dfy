/**
The conversions of vsnprintf: the text of a number, a character or a string, and
the buffer of limited size it is put into one character at a time.
*/
module Conversions {
  import opened Bits
  import opened Numerals

  const NUL: char := '\0'
  const WORD: nat := 0x1_0000_0000

  datatype Flags = Flags(alternate: bool, zeroPad: bool, left: bool, space: bool, plus: bool, signed: bool, small: bool)

  const NoFlags := Flags(false, false, false, false, false, false, false)

  // ---- text of one conversion -----------------------------------------------------

  function Sign(num: int, flags: Flags): (s: seq<char>)
    ensures |s| <= 1
  {
    if flags.signed && num < 0 then ['-'] else if flags.plus then ['+'] else if flags.space then [' '] else []
  }

  // The number printed: the source keeps 32 bits of it.
  function Magnitude(num: int, flags: Flags): (n: nat)
    ensures n < WORD
  {
    if flags.signed && num < 0 then (-num) % WORD else num % WORD
  }

  function Prefix(base: nat, flags: Flags): (s: seq<char>)
    ensures |s| <= 2
  {
    if !flags.alternate then []
    else if base == 8 then ['0']
    else if base == 16 then ['0', if flags.small then 'x' else 'X']
    else []
  }

  function Lacking(width: nat, n: nat): nat {
    if width > n then width - n else 0
  }

  // What comes in front of the digits: sign and prefix, padded.
  function LeadText(lead: seq<char>, pad: nat, flags: Flags): seq<char> {
    if flags.left then lead
    else if flags.zeroPad then lead + Repeat('0', pad)
    else Repeat(' ', pad) + lead
  }

  function IntText(num: int, base: nat, width: nat, flags: Flags): (s: seq<char>)
    requires 2 <= base <= 16
    ensures |s| >= width
  {
    var digits := Digits(Magnitude(num, flags), base, flags.small);
    var lead := Sign(num, flags) + Prefix(base, flags);
    var pad := Lacking(width, |lead| + |digits|);
    if flags.left then lead + digits + Repeat(' ', pad)
    else if flags.zeroPad then lead + Repeat('0', pad) + digits
    else Repeat(' ', pad) + lead + digits
  }

  lemma IntTextParts(num: int, base: nat, width: nat, flags: Flags, lead: seq<char>, digits: seq<char>, pad: nat)
    requires 2 <= base <= 16 && digits == Digits(Magnitude(num, flags), base, flags.small)
    requires lead == Sign(num, flags) + Prefix(base, flags) && pad == Lacking(width, |lead| + |digits|)
    ensures IntText(num, base, width, flags)
         == LeadText(lead, pad, flags) + digits + if pad > 0 && flags.left then Repeat(' ', pad) else []
  {
    hide Digits, Sign, Prefix, Magnitude, Lacking;
  }

  // A string of text, padded to a width.
  function Field(s: seq<char>, width: nat, left: bool): (r: seq<char>)
    ensures |r| >= width
  {
    if left then s + Repeat(' ', Lacking(width, |s|)) else Repeat(' ', Lacking(width, |s|)) + s
  }

  /** The field is as wide as asked or as the number needs; the number stands whole at its left end or its right end,
      and zeros come between sign and digits only. */
  lemma IntTextLayout(num: int, base: nat, width: nat, flags: Flags)
    requires 2 <= base <= 16
    ensures var t := IntText(num, base, width, flags);
            var lead := Sign(num, flags) + Prefix(base, flags);
            var digits := Digits(Magnitude(num, flags), base, flags.small);
            var n := |lead| + |digits|;
            && |t| == (if width > n then width else n)
            && (flags.left ==> t[..n] == lead + digits && forall i :: n <= i < |t| ==> t[i] == ' ')
            && (!flags.left ==> t[|t| - |digits|..] == digits)
            && (!flags.left && flags.zeroPad ==>
                  t[..|lead|] == lead && forall i :: |lead| <= i < |t| - |digits| ==> t[i] == '0')
            && (!flags.left && !flags.zeroPad ==>
                  t[|t| - n..] == lead + digits && forall i :: 0 <= i < |t| - n ==> t[i] == ' ')
  {
    hide Digits, Sign, Prefix, Magnitude;
  }

  // ---- the buffer --------------------------------------------------------------------

  // buf, pos and max as bputc is given them; `text` is all that was put.
  class Sink {
    const buf: array<char>
    const max: nat
    var pos: nat
    ghost var text: seq<char>

    ghost predicate Valid()
      reads this, buf
    {
      && pos == |text| && max <= buf.Length
      && (forall i :: 0 <= i < pos && i < max ==> buf[i] == text[i])
    }

    constructor (buf: array<char>, max: nat)
      requires max <= buf.Length
      ensures Valid() && this.buf == buf && this.max == max && text == []
    {
      this.buf, this.max, pos, text := buf, max, 0, [];
    }

    method Putc(c: char)
      requires Valid()
      modifies this`pos, this`text, buf
      ensures Valid() && text == old(text) + [c]
      ensures forall i :: max <= i < buf.Length ==> buf[i] == old(buf[i])
    {
      if pos < max {
        buf[pos] := c;
      }
      pos := pos + 1;
      text := text + [c];
    }

    method Puts(s: seq<char>)
      requires Valid()
      modifies this`pos, this`text, buf
      ensures Valid() && text == old(text) + s
      ensures forall i :: max <= i < buf.Length ==> buf[i] == old(buf[i])
    {
      var j := 0;
      while j < |s|
        invariant 0 <= j <= |s| && Valid() && text == old(text) + s[..j]
        invariant forall i :: max <= i < buf.Length ==> buf[i] == old(buf[i])
      {
        Putc(s[j]);
        j := j + 1;
      }
    }

    method Pad(c: char, n: nat)
      requires Valid()
      modifies this`pos, this`text, buf
      ensures Valid() && text == old(text) + Repeat(c, n)
      ensures forall i :: max <= i < buf.Length ==> buf[i] == old(buf[i])
    {
      var npad := n;
      while npad > 0
        invariant 0 <= npad <= n && Valid() && text == old(text) + Repeat(c, n - npad)
        invariant forall i :: max <= i < buf.Length ==> buf[i] == old(buf[i])
      {
        Putc(c);
        npad := npad - 1;
      }
    }

    method TakeDigit(n: nat, base: nat, small: bool) returns (d: char, rest: nat)
      requires 2 <= base <= 16
      ensures Digits(n, base, small) == (if rest == 0 then [] else Digits(rest, base, small)) + [d]
      ensures rest == 0 || rest < n
    {
      hide Digit, Digits;
      LastDigit(n, base, small);
      d := Digit(n % base, small);
      rest := n / base;
    }

    // The digits of n, least significant first, as fmt_int collects them: 64 places are enough.
    method Collect(n: nat, base: nat, small: bool) returns (nbuf: array<char>, i: nat)
      requires n < WORD && 2 <= base <= 16
      ensures fresh(nbuf) && i == |Digits(n, base, small)| <= nbuf.Length == 64
      ensures forall j :: 0 <= j < i ==> nbuf[j] == Digits(n, base, small)[i - 1 - j]
    {
      hide Digit, Digits, Pow2;
      ghost var all := Digits(n, base, small);
      Pow2Of32();
      DigitsBound(n, base, small, 32);
      nbuf := new char[64];
      i := 0;
      var rest: nat := n;
      var more := true;
      while more
        invariant i <= |all| && (!more ==> i == |all|)
        invariant more ==> i < |all| && all[..|all| - i] == Digits(rest, base, small)
        invariant forall j :: 0 <= j < i ==> nbuf[j] == all[|all| - 1 - j]
        decreases more, rest
      {
        var d: char;
        d, rest := TakeDigit(rest, base, small);
        assert d == all[..|all| - i][|all| - 1 - i] == all[|all| - 1 - i];
        nbuf[i] := d;
        assert all[..|all| - i][..|all| - i - 1] == all[..|all| - i - 1];
        i := i + 1;
        more := rest > 0;
      }
    }

    method PutDigits(nbuf: array<char>, n: nat, ghost digits: seq<char>)
      requires Valid() && nbuf != buf && n == |digits| <= nbuf.Length
      requires forall j :: 0 <= j < n ==> nbuf[j] == digits[n - 1 - j]
      modifies this`pos, this`text, buf
      ensures Valid() && text == old(text) + digits
      ensures forall i :: max <= i < buf.Length ==> buf[i] == old(buf[i])
    {
      var i := n;
      while i > 0
        invariant 0 <= i <= n && Valid() && text == old(text) + digits[..n - i]
        invariant forall j :: 0 <= j < n ==> nbuf[j] == digits[n - 1 - j]
        invariant forall k :: max <= k < buf.Length ==> buf[k] == old(buf[k])
      {
        i := i - 1;
        Putc(nbuf[i]);
      }
    }

    // Sign and prefix, with the padding that goes in front of the digits.
    method PutLead(altb: seq<char>, npad: nat, flags: Flags)
      requires Valid()
      modifies this`pos, this`text, buf
      ensures Valid()
      ensures text == old(text) + LeadText(altb, npad, flags)
      ensures forall i :: max <= i < buf.Length ==> buf[i] == old(buf[i])
    {
      if npad > 0 && !flags.left {
        if flags.zeroPad {
          Puts(altb);
          Pad('0', npad);
        } else {
          Pad(' ', npad);
          Puts(altb);
        }
      } else {
        Puts(altb);
        assert npad == 0 ==> Repeat('0', npad) == [] && Repeat(' ', npad) == [];
      }
    }

    // fmt_int's first half: the 32 bits to print, the sign and the prefix.
    method Prepare(num: int, base: nat, flags: Flags) returns (n: nat, altb: seq<char>)
      ensures n == Magnitude(num, flags) && altb == Sign(num, flags) + Prefix(base, flags)
    {
      n := num % WORD;
      altb := [];
      if flags.signed && num < 0 {
        n := (-num) % WORD;
        altb := ['-'];
      } else if flags.plus {
        altb := ['+'];
      } else if flags.space {
        altb := [' '];
      }
      if flags.alternate && (base == 8 || base == 16) {
        altb := altb + ['0'];
        if base == 16 {
          altb := altb + [if flags.small then 'x' else 'X'];
        }
      }
    }

    method FmtInt(num: int, base: nat, width: nat, flags: Flags)
      requires Valid() && 2 <= base <= 16
      modifies this`pos, this`text, buf
      ensures Valid() && text == old(text) + IntText(num, base, width, flags)
      ensures forall i :: max <= i < buf.Length ==> buf[i] == old(buf[i])
    {
      hide Digits, Repeat, Valid, Sign, Prefix, Magnitude, Lacking, IntText, LeadText;
      var n, altb := Prepare(num, base, flags);
      ghost var digits := Digits(n, base, flags.small);
      var nbuf, i := Collect(n, base, flags.small);
      var npad := Lacking(width, |altb| + i);
      PutLead(altb, npad, flags);
      PutDigits(nbuf, i, digits);
      if npad > 0 && flags.left {
        Pad(' ', npad);
      }
      IntTextParts(num, base, width, flags, altb, digits, npad);
    }

    // fmt_chr and fmt_str: a character or a string, padded with spaces.
    method FmtStr(s: seq<char>, width: nat, flags: Flags)
      requires Valid()
      modifies this`pos, this`text, buf
      ensures Valid() && text == old(text) + Field(s, width, flags.left)
      ensures forall i :: max <= i < buf.Length ==> buf[i] == old(buf[i])
    {
      var npad := Lacking(width, |s|);
      if npad > 0 && !flags.left {
        Pad(' ', npad);
      }
      Puts(s);
      if npad > 0 && flags.left {
        Pad(' ', npad);
      }
    }
  }
}
