/**
 The reference meaning of a format string: split it into literal characters and conversion
 specifications by its grammar (ISO C11, section 7.21.6.1, in the subset the kernel supports),
 then render each conversion from its argument.
 */
module Format {
  import opened Words
  import opened Numerals

  /** The widths a length modifier selects. */
  datatype Size = Char8 | Short16 | Int32 | Long64

  datatype Directive = Directive(left: bool, zero: bool, width: U64, size: Size, conv: CChar)

  /** An incomplete specification prints nothing if `Unfinished`; `Overrun` makes the parser read past the NUL. */
  datatype Piece =
    | Literal(c: CChar)
    | Conversion(d: Directive)
    | Unfinished
    | Overrun

  // ---------------------------------------------------------------- the grammar

  predicate IsDecimal(c: char) { '0' <= c <= '9' }

  predicate IsModifier(c: char) { c == 'z' || c == 't' || c == 'l' || c == 'L' || c == 'h' }

  predicate IsConversion(c: char) {
    c == 'd' || c == 'i' || c == 'u' || c == 'o' || c == 'x' || c == 'X' || c == 'p' || c == 'c' || c == 's'
  }

  /** The end of the run of dashes, of decimal digits, of modifier characters that starts at `i`. */
  function DashEnd(fmt: CString, i: nat): (e: nat)
    requires i <= |fmt|
    ensures i <= e <= |fmt|
    decreases |fmt| - i
  {
    if i < |fmt| && fmt[i] == '-' then DashEnd(fmt, i + 1) else i
  }

  function DigitsEnd(fmt: CString, i: nat): (e: nat)
    requires i <= |fmt|
    ensures i <= e <= |fmt|
    decreases |fmt| - i
  {
    if i < |fmt| && IsDecimal(fmt[i]) then DigitsEnd(fmt, i + 1) else i
  }

  function ModifiersEnd(fmt: CString, i: nat): (e: nat)
    requires i <= |fmt|
    ensures i <= e <= |fmt|
    decreases |fmt| - i
  {
    if i < |fmt| && IsModifier(fmt[i]) then ModifiersEnd(fmt, i + 1) else i
  }

  /** Any of z, t, l and L means 64 bits; otherwise an odd number of h is short, an even one char. */
  function SizeOf(mods: seq<CChar>): Size {
    if exists k :: 0 <= k < |mods| && mods[k] != 'h' then Long64
    else if |mods| % 2 == 1 then Short16
    else if |mods| > 0 then Char8
    else Int32
  }

  /** The piece that starts after the percent sign at `i - 1`, and where it ends. */
  function ParseDirective(fmt: CString, i: nat): (r: (Piece, nat))
    requires i <= |fmt|
    ensures i <= r.1 <= |fmt|
  {
    var a := DashEnd(fmt, i);
    if a == |fmt| then (if a == i then Overrun else Unfinished, a)
    else if fmt[a] == '%' then (Literal('%'), a + 1)
    else
      var zero := fmt[a] == '0';
      var b := if zero then a + 1 else a;
      if b == |fmt| then (Overrun, b)
      else
        var c := DigitsEnd(fmt, b);
        var d := ModifiersEnd(fmt, c);
        if d == |fmt| then (Unfinished, d)
        else if !IsConversion(fmt[d]) then (Literal(fmt[d]), d + 1)
        else
          (Conversion(Directive(a > i, zero, Value(fmt[b..c], 10) % TWO_64, SizeOf(fmt[c..d]), fmt[d])), d + 1)
  }

  /** The pieces of a format string from `i` on. */
  function ParseFrom(fmt: CString, i: nat): seq<Piece>
    requires i <= |fmt|
    decreases |fmt| - i
  {
    if i == |fmt| then []
    else if fmt[i] != '%' then [Literal(fmt[i])] + ParseFrom(fmt, i + 1)
    else
      var (p, next) := ParseDirective(fmt, i + 1);
      [p] + ParseFrom(fmt, next)
  }

  function Parse(fmt: CString): seq<Piece> {
    ParseFrom(fmt, 0)
  }

  /** A format the parser would run past the end of. */
  predicate Dangling(fmt: CString) {
    Overrun in Parse(fmt)
  }

  // ---------------------------------------------------------------- arguments

  /**
   The variable arguments: slot `k` holds a 64-bit word, of which a 32-bit argument is the low
   half; `text` is the string at an address.
   */
  datatype VaList = VaList(slot: nat -> U64, text: U64 -> CString)

  function Bits(size: Size): nat {
    match size
    case Char8 => TWO_8
    case Short16 => TWO_16
    case Int32 => TWO_32
    case Long64 => TWO_64
  }

  /** The argument reduced to the selected width, as an unsigned and as a signed number. */
  function Unsigned(w: U64, size: Size): U64 {
    w % Bits(size)
  }

  function Signed(w: U64, size: Size): int {
    var u := Unsigned(w, size);
    if u < Bits(size) / 2 then u else u - Bits(size)
  }

  // ---------------------------------------------------------------- rendering

  function Repeat(c: CChar, n: nat): (s: seq<CChar>)
    ensures |s| == n
  {
    seq(n, _ => c)
  }

  /** Sign or prefix and body in a field of the given width. */
  function Justify(prefix: seq<CChar>, body: seq<CChar>, width: nat, left: bool, zero: bool): seq<CChar> {
    var n := |prefix| + |body|;
    var pad := if width > n then width - n else 0;
    if left then prefix + body + Repeat(' ', pad)
    else if zero then prefix + Repeat('0', pad) + body
    else Repeat(' ', pad) + prefix + body
  }

  /** The sign or prefix of a conversion. */
  function Prefix(d: Directive, w: U64): seq<CChar> {
    if (d.conv == 'd' || d.conv == 'i') && Signed(w, d.size) < 0 then ['-']
    else if d.conv == 'p' && w != 0 then ['0', 'x']
    else []
  }

  /** What a conversion shows, without sign, prefix and padding. */
  function Body(d: Directive, w: U64, text: U64 -> CString): seq<CChar>
    requires IsConversion(d.conv)
  {
    match d.conv
    case 'd' => Numeral(if Signed(w, d.size) < 0 then -Signed(w, d.size) else Signed(w, d.size), 10, false)
    case 'i' => Numeral(if Signed(w, d.size) < 0 then -Signed(w, d.size) else Signed(w, d.size), 10, false)
    case 'u' => Numeral(Unsigned(w, d.size), 10, false)
    case 'o' => Numeral(Unsigned(w, d.size), 8, false)
    case 'x' => Numeral(Unsigned(w, d.size), 16, true)
    case 'X' => Numeral(Unsigned(w, d.size), 16, false)
    case 'p' => if w == 0 then "(nil)" else Numeral(w, 16, true)
    case 'c' => if w % TWO_8 == 0 then [] else [(w % TWO_8) as char]
    case 's' => if w == 0 then "(null)" else text(w)
  }

  /** The zero flag pads numbers only. */
  predicate ZeroPads(d: Directive, w: U64) {
    d.zero && d.conv != 'c' && d.conv != 's' && !(d.conv == 'p' && w == 0)
  }

  function RenderConversion(d: Directive, w: U64, text: U64 -> CString): seq<CChar>
    requires IsConversion(d.conv)
  {
    Justify(Prefix(d, w), Body(d, w, text), d.width, d.left, ZeroPads(d, w))
  }

  function RenderPiece(p: Piece, k: nat, args: VaList): seq<CChar>
    requires p.Conversion? ==> IsConversion(p.d.conv)
  {
    match p
    case Literal(c) => [c]
    case Conversion(d) => RenderConversion(d, args.slot(k), args.text)
    case Unfinished => []
    case Overrun => ['\0']
  }

  function ArgsUsed(p: Piece): nat {
    if p.Conversion? then 1 else 0
  }

  predicate WellFormed(ps: seq<Piece>) {
    forall k :: 0 <= k < |ps| ==> ps[k].Conversion? ==> IsConversion(ps[k].d.conv)
  }

  /** The characters the pieces produce, each conversion taking the next argument. */
  function Render(ps: seq<Piece>, k: nat, args: VaList): seq<CChar>
    requires WellFormed(ps)
  {
    if ps == [] then []
    else RenderPiece(ps[0], k, args) + Render(ps[1..], k + ArgsUsed(ps[0]), args)
  }

  lemma {:induction false} ParseWellFormed(fmt: CString, i: nat)
    requires i <= |fmt|
    ensures WellFormed(ParseFrom(fmt, i))
    decreases |fmt| - i
  {
    if i < |fmt| {
      ParseWellFormed(fmt, if fmt[i] != '%' then i + 1 else ParseDirective(fmt, i + 1).1);
    }
  }

  /** The output of a format from position `i` on, when `k` arguments are used up. */
  function OutputFrom(fmt: CString, i: nat, k: nat, args: VaList): seq<CChar>
    requires i <= |fmt|
  {
    ParseWellFormed(fmt, i);
    Render(ParseFrom(fmt, i), k, args)
  }

  /** Parse, then render. */
  function Formatted(fmt: CString, args: VaList): seq<CChar> {
    OutputFrom(fmt, 0, 0, args)
  }
}
