/** What the reference meaning of a format guarantees, independently of how it is computed. */
module FormatTheorems {
  import opened Words
  import opened Numerals
  import opened Format

  // ---------------------------------------------------------------- fields

  /** A conversion is exactly as wide as its field asks, or as its sign and digits need. */
  lemma FieldLength(d: Directive, w: U64, text: U64 -> CString)
    requires IsConversion(d.conv)
    ensures |RenderConversion(d, w, text)| == Max(d.width, |Prefix(d, w)| + |Body(d, w, text)|)
  {
    hide Prefix, Body, ZeroPads;
  }

  /** Only blanks and zeros pad; the sign is in front of zeros, and next to the digits behind blanks. */
  lemma FieldShape(prefix: seq<CChar>, body: seq<CChar>, width: nat, left: bool, zero: bool)
    ensures var f := Justify(prefix, body, width, left, zero);
            var pad := |f| - |prefix| - |body|;
            && pad >= 0
            && (left ==> f[..|prefix| + |body|] == prefix + body && forall k :: |f| - pad <= k < |f| ==> f[k] == ' ')
            && (!left && zero ==>
                  f[..|prefix|] == prefix && f[|f| - |body|..] == body
                  && forall k :: |prefix| <= k < |prefix| + pad ==> f[k] == '0')
            && (!left && !zero ==> f[pad..] == prefix + body && forall k :: 0 <= k < pad ==> f[k] == ' ')
  {
    hide Repeat;
    var n := |prefix| + |body|;
    var pad := if width > n then width - n else 0;
    RepeatIs(' ', pad);
    RepeatIs('0', pad);
    if left {
      AppendShape(prefix + body, Repeat(' ', pad));
    } else if zero {
      AppendShape(prefix + Repeat('0', pad), body);
      AppendShape(prefix, Repeat('0', pad));
    } else {
      assert Repeat(' ', pad) + prefix + body == Repeat(' ', pad) + (prefix + body);
      AppendShape(Repeat(' ', pad), prefix + body);
    }
  }

  lemma RepeatIs(c: CChar, n: nat)
    ensures forall k :: 0 <= k < n ==> Repeat(c, n)[k] == c
  {
  }

  lemma AppendShape(s: seq<CChar>, t: seq<CChar>)
    ensures (s + t)[..|s|] == s && (s + t)[|s|..] == t
  {
  }

  // ---------------------------------------------------------------- numbers read back

  predicate IsInteger(conv: CChar) {
    conv == 'd' || conv == 'i' || conv == 'u' || conv == 'o' || conv == 'x' || conv == 'X'
  }

  /** The base a conversion writes in. */
  function BaseOf(conv: CChar): (b: nat)
    ensures Base(b)
  {
    if conv == 'o' then 8 else if conv == 'x' || conv == 'X' || conv == 'p' then 16 else 10
  }

  /** The number a conversion is given: its argument reduced to the selected width and signedness. */
  function Given(d: Directive, w: U64): int {
    if d.conv == 'd' || d.conv == 'i' then Signed(w, d.size)
    else if d.conv == 'p' then w
    else Unsigned(w, d.size)
  }

  /**
   Reading the printed digits back, with the sign in front, gives the argument at its width; the
   digits have no superfluous leading zero.
   */
  lemma NumberReadsBack(d: Directive, w: U64, text: U64 -> CString)
    requires IsInteger(d.conv) || (d.conv == 'p' && w != 0)
    ensures var v: int := Value(Body(d, w, text), BaseOf(d.conv));
            && Given(d, w) == (if Prefix(d, w) == ['-'] then -v else v)
            && (Prefix(d, w) == ['-'] <==> Given(d, w) < 0)
            && Body(d, w, text) != [] && (Body(d, w, text)[0] == '0' <==> Given(d, w) == 0)
  {
    hide Numeral, Value, Signed, Unsigned;
    var n := if Given(d, w) < 0 then -Given(d, w) else Given(d, w);
    var lower := d.conv == 'x' || d.conv == 'p';
    NumeralValue(n, BaseOf(d.conv), lower);
    NumeralShape(n, BaseOf(d.conv), lower);
    assert Prefix(d, w) != ['-'] || Given(d, w) < 0 by {
      if d.conv == 'p' {
        assert Prefix(d, w)[0] == '0';
      }
    }
  }

  lemma {:induction false} LeadingZeros(n: nat, s: seq<CChar>, b: nat)
    ensures Value(Repeat('0', n) + s, b) == Value(s, b)
    decreases |s|, n
  {
    if s != [] {
      var j := |s| - 1;
      assert (Repeat('0', n) + s)[..n + j] == Repeat('0', n) + s[..j];
      LeadingZeros(n, s[..j], b);
    } else if n > 0 {
      assert Repeat('0', n) + s == Repeat('0', n - 1) + [] + ['0'];
      ValueSnoc(Repeat('0', n - 1) + [], '0', b);
      LeadingZeros(n - 1, [], b);
    }
  }

  /** Zero padding does not change the number a field denotes. */
  lemma ZeroPaddedReadsBack(d: Directive, w: U64, text: U64 -> CString)
    requires IsInteger(d.conv) && d.zero && !d.left
    ensures var f := RenderConversion(d, w, text);
            |Prefix(d, w)| <= |f| && f[..|Prefix(d, w)|] == Prefix(d, w)
            && var v: int := Value(f[|Prefix(d, w)|..], BaseOf(d.conv));
            Given(d, w) == if Prefix(d, w) == ['-'] then -v else v
  {
    NumberReadsBack(d, w, text);
    hide Value, Given, BaseOf, Body, Prefix, Justify;
    var prefix, body := Prefix(d, w), Body(d, w, text);
    assert RenderConversion(d, w, text) == Justify(prefix, body, d.width, false, true);
    ZeroPadded(prefix, body, d.width);
    LeadingZeros(Max(d.width, |prefix| + |body|) - |prefix| - |body|, body, BaseOf(d.conv));
  }

  lemma ZeroPadded(prefix: seq<CChar>, body: seq<CChar>, width: nat)
    ensures var f := Justify(prefix, body, width, false, true);
            && |prefix| <= |f| && f[..|prefix|] == prefix
            && f[|prefix|..] == Repeat('0', Max(width, |prefix| + |body|) - |prefix| - |body|) + body
  {
    hide Repeat;
    var zeros := Repeat('0', Max(width, |prefix| + |body|) - |prefix| - |body|);
    assert prefix + zeros + body == prefix + (zeros + body);
    AppendShape(prefix, zeros + body);
  }

  // ---------------------------------------------------------------- specifications written down

  function SpellSize(size: Size): seq<CChar> {
    match size
    case Char8 => ['h', 'h']
    case Short16 => ['h']
    case Int32 => []
    case Long64 => ['l']
  }

  function SpellWidth(width: nat): seq<CChar> {
    if width == 0 then [] else Numeral(width, 10, false)
  }

  function Mark(on: bool, c: CChar): seq<CChar> {
    if on then [c] else []
  }

  /** A specification written out without its percent sign. */
  function Spell(d: Directive): seq<CChar> {
    Mark(d.left, '-') + (Mark(d.zero, '0') + (SpellWidth(d.width) + (SpellSize(d.size) + [d.conv])))
  }

  predicate Spellable(p: Piece) {
    match p
    case Literal(c) => c != '\0'
    case Conversion(d) => IsConversion(d.conv)
    case Unfinished => false
    case Overrun => false
  }

  function SpellPiece(p: Piece): (s: seq<CChar>)
    requires Spellable(p)
    ensures s != []
  {
    match p
    case Literal(c) => if c == '%' then ['%', '%'] else [c]
    case Conversion(d) => ['%'] + Spell(d)
  }

  function SpellAll(ps: seq<Piece>): seq<CChar>
    requires forall k :: 0 <= k < |ps| ==> Spellable(ps[k])
  {
    if ps == [] then [] else SpellPiece(ps[0]) + SpellAll(ps[1..])
  }

  lemma {:induction false} DashRun(fmt: CString, i: nat, e: nat)
    requires i <= e < |fmt| && (forall k :: i <= k < e ==> fmt[k] == '-') && fmt[e] != '-'
    ensures DashEnd(fmt, i) == e
    decreases e - i
  {
    if i < e {
      DashRun(fmt, i + 1, e);
    }
  }

  lemma {:induction false} DigitRun(fmt: CString, i: nat, e: nat)
    requires i <= e < |fmt| && (forall k :: i <= k < e ==> IsDecimal(fmt[k])) && !IsDecimal(fmt[e])
    ensures DigitsEnd(fmt, i) == e
    decreases e - i
  {
    if i < e {
      DigitRun(fmt, i + 1, e);
    }
  }

  lemma {:induction false} ModifierRun(fmt: CString, i: nat, e: nat)
    requires i <= e < |fmt| && (forall k :: i <= k < e ==> IsModifier(fmt[k])) && !IsModifier(fmt[e])
    ensures ModifiersEnd(fmt, i) == e
    decreases e - i
  {
    if i < e {
      ModifierRun(fmt, i + 1, e);
    }
  }

  lemma WidthDigits(width: nat)
    ensures forall k :: 0 <= k < |SpellWidth(width)| ==> IsDecimal(SpellWidth(width)[k])
    ensures SpellWidth(width) != [] ==> SpellWidth(width)[0] != '0'
    ensures Value(SpellWidth(width), 10) == width
  {
    if width > 0 {
      NumeralShape(width, 10, false);
      NumeralValue(width, 10, false);
      forall k | 0 <= k < |SpellWidth(width)| ensures IsDecimal(SpellWidth(width)[k]) {
        assert IsDigit(SpellWidth(width)[k], 10, false);
      }
    }
  }

  lemma SizeSpelled(size: Size)
    ensures SizeOf(SpellSize(size)) == size
    ensures forall k :: 0 <= k < |SpellSize(size)| ==> IsModifier(SpellSize(size)[k])
  {
    if size == Long64 {
      assert SpellSize(size)[0] != 'h';
    }
  }

  /** A run of dashes up to `a`, a zero flag, digits up to `c`, modifiers up to `e`. */
  predicate Runs(fmt: CString, i: nat, a: nat, b: nat, c: nat, e: nat) {
    && i <= a <= b <= c <= e < |fmt|
    && (forall k :: i <= k < a ==> fmt[k] == '-') && fmt[a] != '-' && fmt[a] != '%'
    && b == (if fmt[a] == '0' then a + 1 else a)
    && (forall k :: b <= k < c ==> IsDecimal(fmt[k])) && !IsDecimal(fmt[c])
    && (forall k :: c <= k < e ==> IsModifier(fmt[k])) && !IsModifier(fmt[e])
  }

  /** What the parser makes of a run of dashes, a zero, digits, modifiers and a last character. */
  lemma RunsParse(fmt: CString, i: nat, a: nat, b: nat, c: nat, e: nat)
    requires Runs(fmt, i, a, b, c, e)
    ensures ParseDirective(fmt, i)
         == (if IsConversion(fmt[e])
             then Conversion(Directive(a > i, b > a, Value(fmt[b..c], 10) % TWO_64, SizeOf(fmt[c..e]), fmt[e]))
             else Literal(fmt[e]),
             e + 1)
  {
    hide Value, SizeOf, IsModifier, IsConversion;
    DashRun(fmt, i, a);
    DigitRun(fmt, b, c);
    ModifierRun(fmt, c, e);
  }

  /** Cuts the first part off a stretch of the format. */
  lemma CutOff(fmt: CString, i: nat, x: seq<CChar>, y: seq<CChar>)
    requires i + |x + y| <= |fmt| && fmt[i..i + |x + y|] == x + y
    ensures fmt[i..i + |x|] == x && fmt[i + |x|..i + |x| + |y|] == y
    ensures forall k :: i <= k < i + |x| ==> fmt[k] == x[k - i]
    ensures x == [] || fmt[i] == x[0]
  {
    var s := fmt[i..i + |x + y|];
    assert s[..|x|] == x && s[|x|..] == y;
  }

  /** The runs of a specification written out in a format. */
  lemma SpelledRuns(fmt: CString, i: nat, d: Directive)
    requires IsConversion(d.conv)
    requires i + |Spell(d)| <= |fmt| && fmt[i..i + |Spell(d)|] == Spell(d)
    ensures var a := i + |Mark(d.left, '-')|;
            var b := a + |Mark(d.zero, '0')|;
            var c := b + |SpellWidth(d.width)|;
            var e := c + |SpellSize(d.size)|;
            && Runs(fmt, i, a, b, c, e) && e + 1 == i + |Spell(d)|
            && fmt[b..c] == SpellWidth(d.width) && fmt[c..e] == SpellSize(d.size) && fmt[e] == d.conv
  {
    hide Value, SizeOf, SpellWidth, SpellSize, IsConversion, IsModifier, IsDecimal;
    CutFour(fmt, i, Mark(d.left, '-'), Mark(d.zero, '0'), SpellWidth(d.width), SpellSize(d.size), d.conv);
    WidthDigits(d.width);
    SizeSpelled(d.size);
    CharacterClasses();
  }

  /** A specification written out in a format is read as itself. */
  lemma SpecificationParses(fmt: CString, i: nat, d: Directive)
    requires IsConversion(d.conv)
    requires i + |Spell(d)| <= |fmt| && fmt[i..i + |Spell(d)|] == Spell(d)
    ensures ParseDirective(fmt, i) == (Conversion(d), i + |Spell(d)|)
  {
    hide Value, SizeOf, SpellWidth, SpellSize, ParseDirective, IsConversion, Runs, Spell;
    SpelledRuns(fmt, i, d);
    WidthDigits(d.width);
    SizeSpelled(d.size);
    var a := i + |Mark(d.left, '-')|;
    var b := a + |Mark(d.zero, '0')|;
    var c := b + |SpellWidth(d.width)|;
    RunsParse(fmt, i, a, b, c, c + |SpellSize(d.size)|);
  }

  lemma CharacterClasses()
    ensures forall c :: IsConversion(c) ==> !IsModifier(c) && !IsDecimal(c) && c != '-' && c != '%' && c != '0'
    ensures forall c :: IsModifier(c) ==> !IsDecimal(c) && c != '-' && c != '%' && c != '0'
    ensures forall c :: IsDecimal(c) ==> c != '-' && c != '%'
  {
  }

  /** The parts of a specification, found at their places. */
  lemma CutFour(
    fmt: CString, i: nat, w: seq<CChar>, x: seq<CChar>, y: seq<CChar>, z: seq<CChar>, c: CChar)
    requires var s := w + (x + (y + (z + [c]))); i + |s| <= |fmt| && fmt[i..i + |s|] == s
    ensures var (a, b) := (i + |w|, i + |w| + |x|);
            && (forall k :: i <= k < a ==> fmt[k] == w[k - i])
            && (x != [] ==> fmt[a] == x[0])
            && fmt[b..b + |y|] == y && (forall k :: b <= k < b + |y| ==> fmt[k] == y[k - b])
            && fmt[b + |y|..b + |y| + |z|] == z
            && (forall k :: b + |y| <= k < b + |y| + |z| ==> fmt[k] == z[k - b - |y|])
            && fmt[b + |y| + |z|] == c
  {
    var b := i + |w| + |x|;
    CutTwo(fmt, i, w, x, y + (z + [c]));
    CutTwo(fmt, b, y, z, [c]);
    FirstOf(fmt, b + |y| + |z|, c);
  }

  lemma FirstOf(fmt: CString, e: nat, c: CChar)
    requires e + 1 <= |fmt| && fmt[e..e + |[c]|] == [c]
    ensures fmt[e] == c
  {
    assert fmt[e..e + 1][0] == fmt[e];
  }

  lemma CutTwo(fmt: CString, i: nat, x: seq<CChar>, y: seq<CChar>, rest: seq<CChar>)
    requires var s := x + (y + rest); i + |s| <= |fmt| && fmt[i..i + |s|] == s
    ensures var (a, b) := (i + |x|, i + |x| + |y|);
            && fmt[i..a] == x && (forall k :: i <= k < a ==> fmt[k] == x[k - i])
            && fmt[a..b] == y && (forall k :: a <= k < b ==> fmt[k] == y[k - a])
            && fmt[b..b + |rest|] == rest
  {
    CutOff(fmt, i, x, y + rest);
    CutOff(fmt, i + |x|, y, rest);
  }

  /** Every sequence of literals and conversions can be written as a format, and parses to itself. */
  lemma {:induction false} SpelledFormatParses(fmt: CString, i: nat, ps: seq<Piece>)
    requires forall k :: 0 <= k < |ps| ==> Spellable(ps[k])
    requires i <= |fmt| && fmt[i..] == SpellAll(ps)
    ensures ParseFrom(fmt, i) == ps
    decreases |ps|
  {
    hide ParseDirective, SpellPiece;
    if ps != [] {
      var s := SpellPiece(ps[0]);
      CutRest(fmt, i, s, SpellAll(ps[1..]));
      SpelledFormatParses(fmt, i + |s|, ps[1..]);
      SpelledPieceParses(fmt, i, ps[0]);
    }
  }

  /** Cuts the first part off the rest of the format. */
  lemma CutRest(fmt: CString, i: nat, x: seq<CChar>, y: seq<CChar>)
    requires i <= |fmt| && fmt[i..] == x + y
    ensures i + |x| <= |fmt| && fmt[i..i + |x|] == x && fmt[i + |x|..] == y
    ensures x == [] || fmt[i] == x[0]
  {
    assert fmt[i..i + |x + y|] == fmt[i..];
    CutOff(fmt, i, x, y);
  }

  lemma SpelledPieceParses(fmt: CString, i: nat, p: Piece)
    requires Spellable(p)
    requires i + |SpellPiece(p)| <= |fmt| && fmt[i..i + |SpellPiece(p)|] == SpellPiece(p)
    ensures if fmt[i] != '%' then p == Literal(fmt[i]) && |SpellPiece(p)| == 1
            else ParseDirective(fmt, i + 1) == (p, i + |SpellPiece(p)|)
  {
    hide ParseDirective, Spell;
    var s := SpellPiece(p);
    assert fmt[i] == fmt[i..i + |s|][0] == s[0];
    match p
    case Literal(c) =>
      if c == '%' {
        assert fmt[i + 1] == fmt[i..i + |s|][1] == s[1];
        DoublePercent(fmt, i + 1);
      }
    case Conversion(d) =>
      CutOff(fmt, i, ['%'], Spell(d));
      SpecificationParses(fmt, i + 1, d);
  }

  lemma DoublePercent(fmt: CString, i: nat)
    requires i < |fmt| && fmt[i] == '%'
    ensures ParseDirective(fmt, i) == (Literal('%'), i + 1)
  {
    DashRun(fmt, i, i);
  }

  lemma SpecificationWithoutNul(d: Directive)
    requires IsConversion(d.conv)
    ensures '\0' !in Spell(d)
  {
    hide Numeral;
    if d.width > 0 {
      NumeralShape(d.width, 10, false);
    }
  }

  lemma {:induction false} SpelledWithoutNul(ps: seq<Piece>)
    requires forall k :: 0 <= k < |ps| ==> Spellable(ps[k])
    ensures '\0' !in SpellAll(ps)
    decreases |ps|
  {
    hide Spell;
    if ps != [] {
      SpelledWithoutNul(ps[1..]);
      assert Spellable(ps[0]);
      if ps[0].Conversion? {
        SpecificationWithoutNul(ps[0].d);
      }
    }
  }

  /** Parsing inverts writing down. */
  lemma ParseInvertsSpelling(ps: seq<Piece>)
    requires forall k :: 0 <= k < |ps| ==> Spellable(ps[k])
    requires |SpellAll(ps)| < 0x8000_0000_0000_0000
    ensures '\0' !in SpellAll(ps)
    ensures Parse(SpellAll(ps)) == ps
  {
    SpelledWithoutNul(ps);
    var s: CString := SpellAll(ps);
    assert s[0..] == s;
    SpelledFormatParses(s, 0, ps);
  }

  // ---------------------------------------------------------------- where parsing overruns

  predicate Whole(p: Piece) { p.Literal? || p.Conversion? }

  predicate Complete(ps: seq<Piece>) {
    forall k :: 0 <= k < |ps| ==> Whole(ps[k])
  }

  /** What may follow a last percent sign that overruns: nothing, or any dashes and one zero. */
  predicate OpenTail(s: seq<CChar>) {
    s == [] || (s[|s| - 1] == '0' && forall k :: 0 <= k < |s| - 1 ==> s[k] == '-')
  }

  lemma OverrunIff(fmt: CString, i: nat)
    requires i <= |fmt|
    ensures ParseDirective(fmt, i).0 == Overrun <==> OpenTail(fmt[i..])
    ensures !Whole(ParseDirective(fmt, i).0) ==> ParseDirective(fmt, i).1 == |fmt|
  {
    DashesBefore(fmt, i);
    var a := DashEnd(fmt, i);
    assert forall k :: 0 <= k < |fmt[i..]| ==> fmt[i..][k] == fmt[i + k];
    if OpenTail(fmt[i..]) && i < |fmt| {
      assert fmt[i..][|fmt| - i - 1] == fmt[|fmt| - 1];
      forall k | i <= k < |fmt| - 1 ensures fmt[k] == '-' {
        assert fmt[i..][k - i] == '-';
      }
      DashRun(fmt, i, |fmt| - 1);
    }
  }

  lemma {:induction false} DashesBefore(fmt: CString, i: nat)
    requires i <= |fmt|
    ensures forall k :: i <= k < DashEnd(fmt, i) ==> fmt[k] == '-'
    ensures DashEnd(fmt, i) < |fmt| ==> fmt[DashEnd(fmt, i)] != '-'
    decreases |fmt| - i
  {
    if i < |fmt| && fmt[i] == '-' {
      DashesBefore(fmt, i + 1);
    }
  }

  lemma {:induction false} DigitsBefore(fmt: CString, i: nat)
    requires i <= |fmt|
    ensures forall k :: i <= k < DigitsEnd(fmt, i) ==> IsDecimal(fmt[k])
    ensures DigitsEnd(fmt, i) < |fmt| ==> !IsDecimal(fmt[DigitsEnd(fmt, i)])
    decreases |fmt| - i
  {
    if i < |fmt| && IsDecimal(fmt[i]) {
      DigitsBefore(fmt, i + 1);
    }
  }

  lemma {:induction false} ModifiersBefore(fmt: CString, i: nat)
    requires i <= |fmt|
    ensures forall k :: i <= k < ModifiersEnd(fmt, i) ==> IsModifier(fmt[k])
    ensures ModifiersEnd(fmt, i) < |fmt| ==> !IsModifier(fmt[ModifiersEnd(fmt, i)])
    decreases |fmt| - i
  {
    if i < |fmt| && IsModifier(fmt[i]) {
      ModifiersBefore(fmt, i + 1);
    }
  }

  /** A piece that ends before the format does is decided by its own characters. */
  lemma PieceIsLocal(fmt: CString, g: CString, i: nat)
    requires i <= |fmt|
    requires Whole(ParseDirective(fmt, i).0)
    requires var e := ParseDirective(fmt, i).1; e <= |g| && fmt[..e] == g[..e]
    ensures i < ParseDirective(fmt, i).1
    ensures ParseDirective(g, i) == ParseDirective(fmt, i)
  {
    hide Value, SizeOf, IsConversion, IsModifier, IsDecimal;
    var a, e := DashEnd(fmt, i), ParseDirective(fmt, i).1;
    DashesBefore(fmt, i);
    assert forall k :: 0 <= k < e ==> fmt[k] == g[k] by {
      assert forall k :: 0 <= k < e ==> fmt[k] == fmt[..e][k] == g[..e][k] == g[k];
    }
    if fmt[a] == '%' {
      DashRun(g, i, a);
    } else {
      var b := if fmt[a] == '0' then a + 1 else a;
      var c := DigitsEnd(fmt, b);
      DigitsBefore(fmt, b);
      ModifiersBefore(fmt, c);
      LocalRuns(fmt, g, i, a, b, c, ModifiersEnd(fmt, c));
    }
  }

  lemma LocalRuns(fmt: CString, g: CString, i: nat, a: nat, b: nat, c: nat, e: nat)
    requires Runs(fmt, i, a, b, c, e) && e < |g| && forall k :: 0 <= k <= e ==> fmt[k] == g[k]
    ensures ParseDirective(g, i) == ParseDirective(fmt, i)
  {
    RunsShared(fmt, g, i, a, b, c, e);
    RunsParse(fmt, i, a, b, c, e);
    RunsParse(g, i, a, b, c, e);
  }

  lemma RunsShared(fmt: CString, g: CString, i: nat, a: nat, b: nat, c: nat, e: nat)
    requires Runs(fmt, i, a, b, c, e) && e < |g| && forall k :: 0 <= k <= e ==> fmt[k] == g[k]
    ensures Runs(g, i, a, b, c, e) && fmt[e] == g[e] && fmt[b..c] == g[b..c] && fmt[c..e] == g[c..e]
  {
    hide IsModifier, IsDecimal;
  }

  /** The piece at `i` and where the next one starts. */
  function FirstPiece(fmt: CString, i: nat): (r: (Piece, nat))
    requires i < |fmt|
    ensures i < r.1 <= |fmt|
  {
    if fmt[i] != '%' then (Literal(fmt[i]), i + 1) else ParseDirective(fmt, i + 1)
  }

  lemma ParseUnfolds(fmt: CString, i: nat)
    requires i < |fmt|
    ensures var (p, next) := FirstPiece(fmt, i); ParseFrom(fmt, i) == [p] + ParseFrom(fmt, next)
  {
  }

  lemma CompleteCons(p: Piece, ps: seq<Piece>)
    ensures Complete([p] + ps) <==> Whole(p) && Complete(ps)
  {
    var qs := [p] + ps;
    if Complete(qs) {
      assert Whole(qs[0]);
      forall k | 0 <= k < |ps| ensures Whole(ps[k]) {
        assert Whole(qs[k + 1]);
      }
    }
  }

  lemma ConcatAssoc(x: seq<Piece>, y: seq<Piece>, z: seq<Piece>)
    ensures x + (y + z) == x + y + z
  {
  }

  /** Where a prefix of a format is complete, the parser arrives at its end. */
  lemma {:induction false} CompletePrefix(fmt: CString, j: nat, i: nat)
    requires i <= j <= |fmt| && Complete(ParseFrom(fmt[..j], i))
    ensures ParseFrom(fmt, i) == ParseFrom(fmt[..j], i) + ParseFrom(fmt, j)
    decreases j - i
  {
    var g: CString := fmt[..j];
    if i < j {
      hide *;
      var (p, next) := FirstPiece(g, i);
      ParseUnfolds(g, i);
      ParseUnfolds(fmt, i);
      CompleteCons(p, ParseFrom(g, next));
      assert g[..next] == fmt[..next];
      FirstPieceIsLocal(g, fmt, i);
      CompletePrefix(fmt, j, next);
      ConcatAssoc([p], ParseFrom(g, next), ParseFrom(fmt, j));
    }
  }

  lemma FirstPieceIsLocal(fmt: CString, g: CString, i: nat)
    requires i < |fmt| && Whole(FirstPiece(fmt, i).0)
    requires var e := FirstPiece(fmt, i).1; e <= |g| && fmt[..e] == g[..e]
    ensures FirstPiece(g, i) == FirstPiece(fmt, i)
  {
    hide ParseDirective;
    var e := FirstPiece(fmt, i).1;
    assert fmt[i] == fmt[..e][i] == g[..e][i] == g[i];
    if fmt[i] == '%' {
      PieceIsLocal(fmt, g, i + 1);
    }
  }

  lemma {:induction false} FindOverrun(fmt: CString, i: nat) returns (j: nat)
    requires i <= |fmt| && Overrun in ParseFrom(fmt, i)
    ensures i <= j < |fmt| && fmt[j] == '%' && OpenTail(fmt[j + 1..])
    ensures Complete(ParseFrom(fmt[..j], i))
    decreases |fmt| - i
  {
    hide ParseDirective, OpenTail;
    var (p, next) := FirstPiece(fmt, i);
    ParseUnfolds(fmt, i);
    if fmt[i] == '%' {
      OverrunIff(fmt, i + 1);
      if p == Overrun {
        return i;
      }
    }
    j := FindOverrun(fmt, next);
    FirstPieceIsLocal(fmt, fmt[..j], i);
    ParseUnfolds(fmt[..j], i);
    CompleteCons(p, ParseFrom(fmt[..j], next));
  }

  /**
   The parser runs past the NUL exactly when the format ends in a percent sign, or in one followed
   by dashes and a zero, and that sign is not itself part of an earlier specification.
   */
  lemma DanglingIff(fmt: CString)
    ensures Dangling(fmt) <==>
            exists j :: 0 <= j < |fmt| && fmt[j] == '%' && OpenTail(fmt[j + 1..]) && Complete(Parse(fmt[..j]))
  {
    hide ParseDirective, OpenTail;
    if Dangling(fmt) {
      var j := FindOverrun(fmt, 0);
      assert Complete(Parse(fmt[..j]));
    }
    forall j | 0 <= j < |fmt| && fmt[j] == '%' && OpenTail(fmt[j + 1..]) && Complete(Parse(fmt[..j]))
      ensures Dangling(fmt)
    {
      CompletePrefix(fmt, j, 0);
      OverrunIff(fmt, j + 1);
      assert ParseFrom(fmt, j)[0] == Overrun;
    }
  }
}
