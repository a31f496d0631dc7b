/** The conversion half of the printf engine: numbers into the buffer, fields out to the sink. */
module Conversions {
  import opened Words
  import opened Numerals
  import opened Format
  import opened Sinks

  /** The flag bits kept while a specification is read and converted. */
  datatype Flags = Flags(
    pointer: bool,
    negative: bool,
    left: bool,
    zero: bool,
    sign: bool,
    is8: bool,
    is16: bool,
    is64: bool)

  const NO_FLAGS: Flags := Flags(false, false, false, false, false, false, false, false)

  /** The size the flags select where several are set. */
  function FlagSize(f: Flags): Size {
    if f.is64 then Long64 else if f.is16 then Short16 else if f.is8 then Char8 else Int32
  }

  const PR_BUFLEN: nat := 64

  /** Upper-case digits, then lower-case ones. */
  const HEX_DIGITS: seq<CChar> :=
    ['0', '1', '2', '3', '4', '5', '6', '7', '8', '9', 'A', 'B', 'C', 'D', 'E', 'F',
     '0', '1', '2', '3', '4', '5', '6', '7', '8', '9', 'a', 'b', 'c', 'd', 'e', 'f']

  lemma HexDigit(d: nat, offset: nat)
    requires d < 16 && (offset == 0 || offset == 16)
    ensures HEX_DIGITS[offset + d] == Digit(d, offset == 16)
  {
  }

  function ShiftBase(shift: nat): (b: nat)
    requires shift == 0 || shift == 3 || shift == 4
    ensures Base(b)
  {
    if shift == 0 then 10 else if shift == 3 then 8 else 16
  }

  // ---------------------------------------------------------------- digits into the buffer

  /**
   The digits of a number, written backwards from the end of the buffer.  Nothing below the first
   of them is written, and so nothing below index 41.
   */
  method WriteNumber(buf: array<CChar>, value: U64, shift: nat, offset: nat) returns (where: nat)
    requires buf.Length == PR_BUFLEN && (shift == 0 || shift == 3 || shift == 4)
    requires offset == 0 || (offset == 16 && shift == 4)
    modifies buf
    ensures 41 <= where < 63 && buf[where..63] == Numeral(value, ShiftBase(shift), offset == 16)
    ensures buf[..where] == old(buf[..where]) && buf[63] == old(buf[63])
  {
    var base, lower := ShiftBase(shift), offset == 16;
    NumeralFits(value, base, lower);
    where := PR_BUFLEN - 1;
    var num: U64 := value;
    var more := true;
    assert buf[63..63] == [];
    while more
      invariant where <= 63 && (more || where < 63)
      invariant more ==> Numeral(num, base, lower) + buf[where..63] == Numeral(value, base, lower)
      invariant !more ==> num == 0 && buf[where..63] == Numeral(value, base, lower)
      invariant buf[..where] == old(buf[..where]) && buf[63] == old(buf[63])
      decreases more, num
    {
      ghost var before, tail := num, buf[where..63];
      DigitBound(num, base, |tail|, value, lower);
      var digit := num % base;
      where := where - 1;
      if shift == 0 {
        buf[where] := (digit + '0' as int) as char;
      } else {
        HexDigit(digit, offset);
        buf[where] := HEX_DIGITS[offset + digit];
      }
      assert buf[where..63] == [Digit(digit, lower)] + tail;
      num := num / base;
      more := num != 0;
      StripDigit(before, base, lower, tail);
    }
  }

  /** While digits are left to write there is room below for them. */
  lemma DigitBound(num: U64, base: nat, written: nat, value: U64, lower: bool)
    requires Base(base) && |Numeral(num, base, lower)| + written == |Numeral(value, base, lower)| <= 22
    ensures written < 22 && 0 <= num / base <= num && num % base < base && (num / base < num || num == 0)
  {
    DivMod(num, base);
    if base == 8 {} else if base == 10 {} else {}
  }

  lemma StripDigit(num: nat, base: nat, lower: bool, tail: seq<CChar>)
    requires Base(base)
    ensures num / base == 0 ==> [Digit(num % base, lower)] + tail == Numeral(num, base, lower) + tail
    ensures num / base != 0 ==>
              Numeral(num / base, base, lower) + ([Digit(num % base, lower)] + tail) == Numeral(num, base, lower) + tail
  {
    DivMod(num, base);
  }

  // ---------------------------------------------------------------- numbers from arguments

  /** A cast of `x` to a signed integer type of `m` values. */
  function AsSigned(x: int, m: nat): int
    requires 0 < m
  {
    if x % m < m / 2 then x % m else x % m - m
  }

  lemma SignedIsCast(w: U64, size: Size)
    ensures Signed(w, size) == AsSigned(w, Bits(size))
    ensures -0x8000_0000_0000_0000 <= Signed(w, size) < 0x8000_0000_0000_0000
    ensures Unsigned(w, size) == w % Bits(size)
  {
  }

  /** Cutting 64 bits to 32 and then to 16 or 8 is cutting them to 16 or 8. */
  lemma CutTwice(w: U64)
    ensures AsSigned(AsSigned(w, TWO_32), TWO_16) == AsSigned(w, TWO_16)
    ensures AsSigned(AsSigned(w, TWO_32), TWO_8) == AsSigned(w, TWO_8)
    ensures w % TWO_32 % TWO_16 == w % TWO_16 && w % TWO_32 % TWO_8 == w % TWO_8
  {
    var q := w / TWO_32;
    assert w == w % TWO_32 + q * TWO_32;
    LowBits(w % TWO_32, q);
    LowBits(w % TWO_32, -1);
  }

  /** Multiples of 2^32 do not show in the low 16 or 8 bits. */
  lemma LowBits(x: int, k: int)
    ensures (x + k * TWO_32) % TWO_16 == x % TWO_16
    ensures (x + k * TWO_32) % TWO_8 == x % TWO_8
  {
    Remainder16(x / TWO_16 + k * TWO_16, x % TWO_16);
    assert x + k * TWO_32 == (x / TWO_16 + k * TWO_16) * TWO_16 + x % TWO_16;
    Remainder8(x / TWO_8 + k * 0x100_0000, x % TWO_8);
    assert x + k * TWO_32 == (x / TWO_8 + k * 0x100_0000) * TWO_8 + x % TWO_8;
  }

  lemma Remainder16(a: int, b: int)
    requires 0 <= b < TWO_16
    ensures (a * TWO_16 + b) % TWO_16 == b
  {
  }

  lemma Remainder8(a: int, b: int)
    requires 0 <= b < TWO_8
    ensures (a * TWO_8 + b) % TWO_8 == b
  {
  }

  /**
   The number behind `DO_NUM`: an argument of 64 or 32 bits, cut to 16 or 8, and for a signed
   conversion its magnitude.  The most negative 64-bit number keeps its magnitude, 2^63.
   */
  method FetchNumber(flags: Flags, w: U64) returns (num: U64, negative: bool)
    ensures flags.sign ==> negative == (Signed(w, FlagSize(flags)) < 0)
    ensures flags.sign ==> num == if negative then -Signed(w, FlagSize(flags)) else Signed(w, FlagSize(flags))
    ensures !flags.sign ==> !negative && num == Unsigned(w, FlagSize(flags))
  {
    SignedIsCast(w, FlagSize(flags));
    CutTwice(w);
    hide AsSigned, Signed, Unsigned;
    negative := false;
    if flags.sign {
      var snum: int;
      if flags.is64 {
        snum := AsSigned(w, TWO_64);
      } else {
        snum := AsSigned(w, TWO_32);
        if flags.is16 || flags.is8 {
          snum := if flags.is16 then AsSigned(snum, TWO_16) else AsSigned(snum, TWO_8);
        }
      }
      if snum < 0 {
        negative := true;
        snum := -snum;
      }
      num := snum % TWO_64;
    } else {
      if flags.is64 {
        num := w;
      } else {
        num := w % TWO_32;
        if flags.is16 || flags.is8 {
          num := if flags.is16 then num % TWO_16 else num % TWO_8;
        }
      }
    }
  }

  // ---------------------------------------------------------------- the conversion switch

  /** The text of a C string: everything before the first NUL. */
  function UpToNul(s: seq<CChar>): seq<CChar> {
    if s == [] || s[0] == '\0' then [] else [s[0]] + UpToNul(s[1..])
  }

  lemma {:induction false} UpToNulStops(s: seq<CChar>, t: seq<CChar>)
    requires '\0' !in s
    ensures UpToNul(s + ['\0'] + t) == s
  {
    if s == [] {
      assert s + ['\0'] + t == ['\0'] + t;
    } else {
      assert s == [s[0]] + s[1..];
      assert (s + ['\0'] + t)[1..] == s[1..] + ['\0'] + t;
      UpToNulStops(s[1..], t);
    }
  }

  /** Sign or prefix as the flags call for it. */
  function FlagPrefix(f: Flags): seq<CChar> {
    if f.pointer then ['0', 'x'] else if f.negative then ['-'] else []
  }

  /** The flags agree with a specification that has been read up to its conversion character. */
  predicate FlagsOf(f: Flags, d: Directive) {
    && !f.pointer && !f.negative && !f.sign
    && f.left == d.left && f.zero == d.zero && FlagSize(f) == d.size
  }

  /** The integer conversions but p: digits into the buffer, the sign into the flags. */
  method ConvertInteger(buf: array<CChar>, conv: CChar, flags: Flags, w: U64, ghost d: Directive,
                        ghost text: U64 -> CString)
    returns (flags': Flags, where: nat)
    requires buf.Length == PR_BUFLEN && buf[63] == '\0'
    requires IsConversion(conv) && conv != 'p' && conv != 'c' && conv != 's'
    requires d.conv == conv && FlagsOf(flags, d)
    modifies buf
    ensures where < 63 && buf[63] == '\0' && buf[where..63] == Body(d, w, text)
    ensures FlagPrefix(flags') == Prefix(d, w) && flags'.left == d.left && flags'.zero == ZeroPads(d, w)
  {
    var digits, shift := 0, 0;
    flags' := flags;
    if conv == 'x' || conv == 'X' {
      digits := if conv == 'x' then 16 else 0;
      flags' := flags'.(sign := false);
      shift := 4;
    } else if conv == 'd' || conv == 'i' {
      flags' := flags'.(sign := true);
    } else if conv == 'u' {
      flags' := flags'.(sign := false);
    } else {
      flags' := flags'.(sign := false);
      shift := 3;
    }
    var num, negative := FetchNumber(flags', w);
    if negative {
      flags' := flags'.(negative := true);
    }
    where := WriteNumber(buf, num, shift, digits);
  }

  const NIL: CString := "(nil)"
  const NULL: CString := "(null)"

  /** The string a number in the buffer stands for: its digits, up to the NUL at the end. */
  lemma NumberText(buf: seq<CChar>, where: nat, n: nat, base: nat, lower: bool)
    requires |buf| == PR_BUFLEN && where <= 63 && buf[63] == '\0' && Base(base)
    requires buf[where..63] == Numeral(n, base, lower)
    ensures UpToNul(buf[where..]) == buf[where..63]
  {
    NumeralShape(n, base, lower);
    assert buf[where..] == buf[where..63] + ['\0'] + [];
    UpToNulStops(buf[where..63], []);
  }

  lemma CStringText(s: CString)
    ensures UpToNul(s + ['\0']) == s
  {
    assert s + ['\0'] == s + ['\0'] + [];
    UpToNulStops(s, []);
  }

  /**
   The conversion switch.  `where` is the string it leaves to be emitted, as the memory from that
   address on; the flags then tell its sign or prefix and whether zeros pad it.
   */
  method Convert(conv: CChar, flags: Flags, w: U64, text: U64 -> CString, ghost d: Directive)
    returns (flags': Flags, where: seq<CChar>)
    requires IsConversion(conv) && d.conv == conv && FlagsOf(flags, d)
    ensures UpToNul(where) == Body(d, w, text)
    ensures FlagPrefix(flags') == Prefix(d, w) && flags'.left == d.left && flags'.zero == ZeroPads(d, w)
  {
    hide UpToNul, Numeral;
    var buf := new CChar[PR_BUFLEN](_ => '\0');
    if conv == 'p' {
      flags' := flags.(sign := false, negative := false, is8 := false, is16 := false, is64 := true);
      if w == 0 {
        flags' := flags'.(zero := false);
        CStringText(NIL);
        where := NIL + ['\0'];
      } else {
        flags' := flags'.(pointer := true);
        var at := WriteNumber(buf, w, 4, 16);
        where := buf[at..];
        NumberText(buf[..], at, w, 16, true);
      }
    } else if conv == 'c' {
      flags' := flags.(sign := false, negative := false, zero := false);
      buf[62] := (w % TWO_8) as char;
      where := buf[62..];
      OneCharText(buf[62], buf[..]);
    } else if conv == 's' {
      flags' := flags.(sign := false, negative := false, zero := false);
      var s := if w == 0 then NULL else text(w);
      CStringText(s);
      where := s + ['\0'];
    } else {
      var at;
      flags', at := ConvertInteger(buf, conv, flags, w, d, text);
      where := buf[at..];
      IntegerText(d, w, text, buf[..], at);
    }
  }

  lemma OneCharText(c: CChar, buf: seq<CChar>)
    requires |buf| == PR_BUFLEN && buf[62] == c && buf[63] == '\0'
    ensures UpToNul(buf[62..]) == if c == '\0' then [] else [c]
  {
    assert buf[62..] == [c] + ['\0'];
    assert buf[62..][1..] == ['\0'];
  }

  lemma IntegerText(d: Directive, w: U64, text: U64 -> CString, buf: seq<CChar>, where: nat)
    requires IsConversion(d.conv) && d.conv != 'p' && d.conv != 'c' && d.conv != 's'
    requires |buf| == PR_BUFLEN && where <= 63 && buf[63] == '\0' && buf[where..63] == Body(d, w, text)
    ensures UpToNul(buf[where..]) == Body(d, w, text)
  {
    var n := if d.conv == 'd' || d.conv == 'i'
             then (if Signed(w, d.size) < 0 then -Signed(w, d.size) else Signed(w, d.size)) else Unsigned(w, d.size);
    var base := if d.conv == 'o' then 8 else if d.conv == 'x' || d.conv == 'X' then 16 else 10;
    NumberText(buf, where, n, base, d.conv == 'x');
  }

  // ---------------------------------------------------------------- fields to the sink

  /** The count is of the characters emitted since the trace had length `start`. */
  ghost predicate Counts(sink: Sink, start: nat, count: U64)
    reads sink
  {
    start <= |sink.trace| && count == (|sink.trace| - start) % TWO_64
  }

  /** A call of the output function, counted. */
  method Emit(sink: Sink, c: CChar, count: U64, ghost start: nat) returns (count': U64)
    requires sink.Valid() && Counts(sink, start, count)
    modifies sink.Footprint()
    ensures sink.Valid() && Counts(sink, start, count') && sink.trace == old(sink.trace) + [c]
  {
    sink.Put(c);
    count' := (count + 1) % TWO_64;
  }

  /** A padding loop: emits `c` while the width is above `limit`. */
  method Pad(sink: Sink, c: CChar, width: nat, limit: nat, count: U64, ghost start: nat)
    returns (width': nat, count': U64)
    requires sink.Valid() && Counts(sink, start, count)
    modifies sink.Footprint()
    ensures sink.Valid() && Counts(sink, start, count') && width' == Min(width, limit)
    ensures sink.trace == old(sink.trace) + Repeat(c, width - width')
  {
    hide Sink.Valid, Counts;
    width', count' := width, count;
    assert Repeat(c, 0) == [];
    while width' > limit
      invariant sink.Valid() && Counts(sink, start, count') && Min(width, limit) <= width' <= width
      invariant sink.trace == old(sink.trace) + Repeat(c, width - width')
    {
      assert Repeat(c, width - width' + 1) == Repeat(c, width - width') + [c];
      count' := Emit(sink, c, count', start);
      width' := width' - 1;
    }
  }

  /** Emits a string up to its NUL. */
  method EmitText(sink: Sink, where: seq<CChar>, count: U64, ghost start: nat) returns (count': U64)
    requires sink.Valid() && Counts(sink, start, count)
    modifies sink.Footprint()
    ensures sink.Valid() && Counts(sink, start, count')
    ensures sink.trace == old(sink.trace) + UpToNul(where)
  {
    hide Sink.Valid, Counts;
    var i := 0;
    count' := count;
    while i < |where| && where[i] != '\0'
      invariant i <= |where| && sink.Valid() && Counts(sink, start, count')
      invariant sink.trace + UpToNul(where[i..]) == old(sink.trace) + UpToNul(where)
    {
      assert where[i..][1..] == where[i + 1..];
      assert UpToNul(where[i..]) == [where[i]] + UpToNul(where[i + 1..]);
      count' := Emit(sink, where[i], count', start);
      i := i + 1;
    }
    assert UpToNul(where[i..]) == [];
  }

  method EmitPrefix(sink: Sink, flags: Flags, count: U64, ghost start: nat) returns (count': U64)
    requires sink.Valid() && Counts(sink, start, count) && (flags.pointer || flags.negative)
    modifies sink.Footprint()
    ensures sink.Valid() && Counts(sink, start, count')
    ensures sink.trace == old(sink.trace) + FlagPrefix(flags)
  {
    if flags.pointer {
      count' := Emit(sink, '0', count, start);
      count' := Emit(sink, 'x', count', start);
    } else {
      count' := Emit(sink, '-', count, start);
    }
  }

  /** `strlen`. */
  method Strlen(where: seq<CChar>) returns (n: nat)
    ensures n == |UpToNul(where)|
  {
    n := 0;
    while n < |where| && where[n] != '\0'
      invariant n <= |where| && |UpToNul(where)| == n + |UpToNul(where[n..])|
    {
      assert where[n..][1..] == where[n + 1..];
      n := n + 1;
    }
  }

  /** What comes before the body of a field: sign or prefix, and the padding on the left. */
  function Lead(flags: Flags, given: nat, actual: nat): seq<CChar> {
    if flags.left then FlagPrefix(flags)
    else
      var pad := given - Min(given, actual);
      if flags.zero then FlagPrefix(flags) + Repeat('0', pad) else Repeat(' ', pad) + FlagPrefix(flags)
  }

  method EmitLead(sink: Sink, flags: Flags, given: nat, actual: nat, count: U64, ghost start: nat)
    returns (width: nat, count': U64)
    requires sink.Valid() && Counts(sink, start, count)
    modifies sink.Footprint()
    ensures sink.Valid() && Counts(sink, start, count')
    ensures width == if flags.left then given else Min(given, actual)
    ensures sink.trace == old(sink.trace) + Lead(flags, given, actual)
  {
    hide Sink.Valid, Counts;
    width, count' := given, count;
    if (flags.pointer || flags.negative) && flags.zero {
      count' := EmitPrefix(sink, flags, count', start);
    }
    ghost var early := if flags.zero then FlagPrefix(flags) else [];
    assert sink.trace == old(sink.trace) + early;
    if !flags.left {
      width, count' := Pad(sink, if flags.zero then '0' else ' ', width, actual, count', start);
    }
    ghost var padding := Repeat(if flags.zero then '0' else ' ', given - width);
    assert sink.trace == old(sink.trace) + (early + padding);
    if (flags.pointer || flags.negative) && !flags.zero {
      count' := EmitPrefix(sink, flags, count', start);
    }
    assert Repeat(' ', 0) == [] && Repeat('0', 0) == [];
    assert early + padding + (if flags.zero then [] else FlagPrefix(flags)) == Lead(flags, given, actual);
  }

  /** The emitting tail of a conversion: sign, padding and body in the order the flags ask for. */
  method EmitField(sink: Sink, flags: Flags, given: nat, where: seq<CChar>, count: U64, ghost start: nat)
    returns (count': U64)
    requires sink.Valid() && Counts(sink, start, count)
    modifies sink.Footprint()
    ensures sink.Valid() && Counts(sink, start, count')
    ensures sink.trace == old(sink.trace) + Justify(FlagPrefix(flags), UpToNul(where), given, flags.left, flags.zero)
  {
    hide Sink.Valid, Counts, UpToNul, Lead;
    var actual := Strlen(where);
    if flags.pointer || flags.negative {
      actual := actual + 1 + (if flags.pointer then 1 else 0);
    }
    var width;
    width, count' := EmitLead(sink, flags, given, actual, count, start);
    count' := EmitText(sink, where, count', start);
    if width < actual {
      width := 0;
    } else {
      width := width - actual;
    }
    width, count' := Pad(sink, ' ', width, 0, count', start);
    FieldParts(flags, UpToNul(where), given);
  }

  /** Lead, body and trailing blanks are the justified field. */
  lemma FieldParts(flags: Flags, body: seq<CChar>, given: nat)
    ensures var n := |FlagPrefix(flags)| + |body|;
            var width := if flags.left then given else Min(given, n);
            Lead(flags, given, n) + body + Repeat(' ', if width < n then 0 else width - n)
              == Justify(FlagPrefix(flags), body, given, flags.left, flags.zero)
  {
    assert Repeat(' ', 0) == [];
  }
}
