/**
 What each conversion prints, in characters and numbers, and how the pieces of a format make up the
 output.
 */
module FormatMeaning {
  import opened Words
  import opened Numerals
  import opened Format
  import opened FormatTheorems

  // ---------------------------------------------------------------- text in a field

  /** A field without sign is its text, with blanks on the side the flag leaves free. */
  lemma BlankField(t: seq<CChar>, width: nat, left: bool)
    ensures Justify([], t, width, left, false) ==
              if width <= |t| then t
              else if left then t + seq(width - |t|, _ => ' ')
              else seq(width - |t|, _ => ' ') + t
  {
    hide Repeat;
    assert [] + t == t;
    if width > |t| {
      BlanksAre(width - |t|);
      assert Repeat(' ', width - |t|) + [] + t == Repeat(' ', width - |t|) + t;
    } else {
      NoBlanks();
      assert t + [] == t && [] + t == t;
    }
  }

  lemma NoBlanks()
    ensures Repeat(' ', 0) == [] && Repeat('0', 0) == []
  {
  }

  lemma BlanksAre(n: nat)
    ensures Repeat(' ', n) == seq(n, _ => ' ')
    ensures Repeat('0', n) == seq(n, _ => '0')
  {
  }

  /** `%s`: the string at the argument, or "(null)" for a null pointer; never padded with zeros. */
  lemma StringShown(d: Directive, w: U64, text: U64 -> CString)
    requires d.conv == 's'
    ensures var t := if w != 0 then text(w) else "(null)";
            RenderConversion(d, w, text) ==
              if d.width <= |t| then t
              else if d.left then t + seq(d.width - |t|, _ => ' ')
              else seq(d.width - |t|, _ => ' ') + t
  {
    hide Justify, Repeat, Numeral, Signed, Unsigned;
    BlankField(if w != 0 then text(w) else "(null)", d.width, d.left);
  }

  /** `%c`: the low byte of the argument, and no character at all for NUL; never padded with zeros. */
  lemma CharacterShown(d: Directive, w: U64, text: U64 -> CString)
    requires d.conv == 'c'
    ensures var t := if w % 256 == 0 then [] else [(w % 256) as char];
            RenderConversion(d, w, text) ==
              if d.width <= |t| then t
              else if d.left then t + seq(d.width - |t|, _ => ' ')
              else seq(d.width - |t|, _ => ' ') + t
  {
    hide Justify, Repeat, Numeral, Signed, Unsigned;
    BlankField(if w % 256 == 0 then [] else [(w % 256) as char], d.width, d.left);
  }

  /** `%p` of a null pointer: "(nil)"; never padded with zeros. */
  lemma NullPointerShown(d: Directive, text: U64 -> CString)
    requires d.conv == 'p'
    ensures var t := "(nil)";
            RenderConversion(d, 0, text) ==
              if d.width <= |t| then t
              else if d.left then t + seq(d.width - |t|, _ => ' ')
              else seq(d.width - |t|, _ => ' ') + t
  {
    BlankField("(nil)", d.width, d.left);
  }

  // ---------------------------------------------------------------- numbers in a field

  /** The field of a number: digits with their sign or prefix, padded as the flags ask. */
  function NumberField(sign: seq<CChar>, digits: seq<CChar>, d: Directive): seq<CChar> {
    var n := |sign| + |digits|;
    if d.width <= n then sign + digits
    else if d.left then sign + digits + seq(d.width - n, _ => ' ')
    else if d.zero then sign + seq(d.width - n, _ => '0') + digits
    else seq(d.width - n, _ => ' ') + sign + digits
  }

  lemma JustifiedNumber(sign: seq<CChar>, digits: seq<CChar>, d: Directive)
    ensures Justify(sign, digits, d.width, d.left, d.zero) == NumberField(sign, digits, d)
  {
    hide Repeat;
    NoBlanks();
    assert sign + [] == sign && [] + sign == sign && sign + digits + [] == sign + digits;
    if d.width > |sign| + |digits| {
      BlanksAre(d.width - |sign| - |digits|);
    }
  }

  /** The letters of hexadecimal digits: small for x and p, capital for X. */
  lemma Alphabet(c: CChar, b: nat, lower: bool)
    requires Base(b) && IsDigit(c, b, lower)
    ensures c in (if lower then "0123456789abcdef" else "0123456789ABCDEF")[..b]
  {
    var k :| 0 <= k < b && c == Digit(k, lower);
    assert (if lower then "0123456789abcdef" else "0123456789ABCDEF")[..b][k] == c;
  }

  lemma NumeralAlphabet(n: nat, b: nat, lower: bool)
    requires Base(b)
    ensures forall k :: 0 <= k < |Numeral(n, b, lower)| ==>
              Numeral(n, b, lower)[k] in (if lower then "0123456789abcdef" else "0123456789ABCDEF")[..b]
  {
    hide IsDigit;
    NumeralShape(n, b, lower);
    forall k | 0 <= k < |Numeral(n, b, lower)|
      ensures Numeral(n, b, lower)[k] in (if lower then "0123456789abcdef" else "0123456789ABCDEF")[..b]
    {
      Alphabet(Numeral(n, b, lower)[k], b, lower);
    }
  }

  /** The digits that may appear for a conversion. */
  function Digits(conv: CChar): seq<CChar> {
    if conv == 'o' then "01234567"
    else if conv == 'x' || conv == 'p' then "0123456789abcdef"
    else if conv == 'X' then "0123456789ABCDEF"
    else "0123456789"
  }

  /** The number of values of each size. */
  function Values(size: Size): (m: int)
    ensures 0 < m
  {
    match size
    case Char8 => 0x100
    case Short16 => 0x1_0000
    case Int32 => 0x1_0000_0000
    case Long64 => 0x1_0000_0000_0000_0000
  }

  /** `v` is the argument modulo the size, in the signed range for d and i and the unsigned one otherwise. */
  predicate Denotes(v: int, d: Directive, w: U64) {
    && (w - v) % Values(d.size) == 0
    && if d.conv == 'd' || d.conv == 'i' then -Values(d.size) <= 2 * v < Values(d.size) else 0 <= v < Values(d.size)
  }

  lemma GivenDenotes(d: Directive, w: U64)
    requires IsInteger(d.conv)
    ensures Denotes(Given(d, w), d, w)
  {
    var m := Values(d.size);
    assert w == w / m * m + w % m;
  }

  /** The numeral of a non-negative number in the base of a conversion. */
  predicate Writes(digits: seq<CChar>, n: int, conv: CChar) {
    && Value(digits, |Digits(conv)|) == n
    && digits != [] && (digits[0] == '0' <==> n == 0)
    && forall k :: 0 <= k < |digits| ==> digits[k] in Digits(conv)
  }

  /**
   The integer conversions: a minus sign for a negative number, the digits of its magnitude in the
   base and letters of the conversion, and the padding.
   */
  lemma NumberShown(d: Directive, w: U64, text: U64 -> CString) returns (v: int, digits: seq<CChar>)
    requires d.conv == 'd' || d.conv == 'i' || d.conv == 'u' || d.conv == 'o' || d.conv == 'x' || d.conv == 'X'
    ensures Denotes(v, d, w) && Writes(digits, if v < 0 then -v else v, d.conv)
    ensures RenderConversion(d, w, text) == NumberField(if v < 0 then ['-'] else [], digits, d)
  {
    hide Denotes, Numeral, Value, Justify, NumberField, Signed, Unsigned;
    v, digits := Given(d, w), Body(d, w, text);
    GivenDenotes(d, w);
    NumberReadsBack(d, w, text);
    NumeralAlphabet(if v < 0 then -v else v, BaseOf(d.conv), d.conv == 'x');
    JustifiedNumber(Prefix(d, w), digits, d);
  }

  /** `%p` of any other pointer: 0x and its small hexadecimal digits, all 64 bits of it. */
  lemma PointerShown(d: Directive, w: U64, text: U64 -> CString) returns (digits: seq<CChar>)
    requires d.conv == 'p' && w != 0
    ensures Writes(digits, w, 'p')
    ensures RenderConversion(d, w, text) == NumberField(['0', 'x'], digits, d)
  {
    hide Numeral, Value, Justify, NumberField;
    digits := Body(d, w, text);
    NumeralValue(w, 16, true);
    NumeralShape(w, 16, true);
    NumeralAlphabet(w, 16, true);
    JustifiedNumber(['0', 'x'], digits, d);
  }

  /** The length modifiers. */
  lemma Modifiers()
    ensures SizeOf([]) == Int32 && SizeOf(['h']) == Short16 && SizeOf(['h', 'h']) == Char8
    ensures SizeOf(['l']) == SizeOf(['l', 'l']) == SizeOf(['L']) == SizeOf(['z']) == SizeOf(['t']) == Long64
  {
    assert ['l'][0] != 'h' && ['l', 'l'][0] != 'h' && ['L'][0] != 'h' && ['z'][0] != 'h' && ['t'][0] != 'h';
  }

  // ---------------------------------------------------------------- pieces in the output

  lemma SpellCons(p: Piece, ps: seq<Piece>)
    requires (forall k :: 0 <= k < |ps| ==> Spellable(ps[k])) && Spellable(p)
    ensures forall k :: 0 <= k < |[p] + ps| ==> Spellable(([p] + ps)[k])
    ensures SpellAll([p] + ps) == SpellPiece(p) + SpellAll(ps)
  {
    assert ([p] + ps)[1..] == ps;
  }

  lemma {:induction false} SpellAllSnoc(ps: seq<Piece>, p: Piece)
    requires (forall k :: 0 <= k < |ps| ==> Spellable(ps[k])) && Spellable(p)
    ensures forall k :: 0 <= k < |ps + [p]| ==> Spellable((ps + [p])[k])
    ensures SpellAll(ps + [p]) == SpellAll(ps) + SpellPiece(p)
    decreases |ps|
  {
    if ps == [] {
      SpellCons(p, []);
      assert ps + [p] == [p] + [];
    } else {
      var first, rest := ps[0], ps[1..];
      SpellAllSnoc(rest, p);
      SpellCons(first, rest + [p]);
      SpellCons(first, rest);
      hide *;
      ConsParts(ps, p);
      Assoc(SpellPiece(first), SpellAll(rest), SpellPiece(p));
    }
  }

  lemma ConsParts(ps: seq<Piece>, p: Piece)
    requires ps != []
    ensures ps == [ps[0]] + ps[1..] && ps + [p] == [ps[0]] + (ps[1..] + [p])
  {
  }

  lemma Assoc(x: seq<CChar>, y: seq<CChar>, z: seq<CChar>)
    ensures x + (y + z) == x + y + z
  {
  }

  /** The positions of the conversions. */
  function ConversionsIn(ps: seq<Piece>): set<nat> {
    set k: nat | k < |ps| && ps[k].Conversion?
  }

  lemma ConversionsSnoc(ps: seq<Piece>, p: Piece)
    ensures |ConversionsIn(ps + [p])| == |ConversionsIn(ps)| + (if p.Conversion? then 1 else 0)
  {
    assert ConversionsIn(ps + [p]) == ConversionsIn(ps) + (if p.Conversion? then {|ps|} else {});
  }

  lemma {:induction false} RenderSnoc(ps: seq<Piece>, p: Piece, k: nat, args: VaList)
    requires WellFormed(ps + [p])
    ensures WellFormed(ps) && (p.Conversion? ==> IsConversion(p.d.conv))
    ensures Render(ps + [p], k, args) == Render(ps, k, args) + RenderPiece(p, k + |ConversionsIn(ps)|, args)
    decreases |ps|
  {
    hide RenderPiece;
    WellFormedParts(ps, p);
    if ps == [] {
      assert ps + [p] == [p] && [p][1..] == [];
      assert ConversionsIn(ps) == {};
    } else {
      var rest := ps[1..];
      assert (ps + [p])[1..] == rest + [p];
      WellFormedParts(rest, p);
      ConversionsCons(ps);
      RenderSnoc(rest, p, k + ArgsUsed(ps[0]), args);
    }
  }

  lemma WellFormedParts(ps: seq<Piece>, p: Piece)
    requires WellFormed(ps + [p])
    ensures WellFormed(ps) && (p.Conversion? ==> IsConversion(p.d.conv))
    ensures ps != [] ==> WellFormed(ps[1..] + [p]) && (ps[0].Conversion? ==> IsConversion(ps[0].d.conv))
  {
    var all := ps + [p];
    assert all[|ps|] == p;
    assert forall k :: 0 <= k < |ps| ==> all[k] == ps[k];
    if ps != [] {
      assert all[1..] == ps[1..] + [p];
    }
  }

  lemma {:induction false} ConversionsCons(ps: seq<Piece>)
    requires ps != []
    ensures |ConversionsIn(ps)| == ArgsUsed(ps[0]) + |ConversionsIn(ps[1..])|
    decreases |ps|
  {
    var n := |ps| - 1;
    assert ps == ps[..n] + [ps[n]];
    ConversionsSnoc(ps[..n], ps[n]);
    if n == 0 {
      assert ps[..n] == [] && ConversionsIn([]) == {};
      assert ps[1..] == [];
    } else {
      assert ps[1..] == ps[..n][1..] + [ps[n]];
      ConversionsCons(ps[..n]);
      ConversionsSnoc(ps[..n][1..], ps[n]);
    }
  }

  /**
   The output of a format grows piece by piece: a literal character adds itself, and a conversion
   its field, made from the argument whose number is the number of conversions before it.
   */
  lemma AppendPiece(ps: seq<Piece>, p: Piece, args: VaList)
    requires (forall k :: 0 <= k < |ps| ==> Spellable(ps[k])) && Spellable(p)
    requires |SpellAll(ps)| + |SpellPiece(p)| < 0x8000_0000_0000_0000
    ensures '\0' !in SpellAll(ps) && '\0' !in SpellAll(ps) + SpellPiece(p)
    ensures Formatted(SpellAll(ps) + SpellPiece(p), args)
              == Formatted(SpellAll(ps), args)
                 + match p
                   case Literal(c) => [c]
                   case Conversion(d) => RenderConversion(d, args.slot(|ConversionsIn(ps)|), args.text)
  {
    hide SpellPiece, SpellAll, Render, RenderConversion, ParseFrom;
    SpellAllSnoc(ps, p);
    AllSpellable(ps, p);
    ParseInvertsSpelling(ps);
    ParseInvertsSpelling(ps + [p]);
    ParseWellFormed(SpellAll(ps), 0);
    ParseWellFormed(SpellAll(ps + [p]), 0);
    RenderSnoc(ps, p, 0, args);
  }

  lemma AllSpellable(ps: seq<Piece>, p: Piece)
    requires (forall k :: 0 <= k < |ps| ==> Spellable(ps[k])) && Spellable(p)
    ensures forall k :: 0 <= k < |ps + [p]| ==> Spellable((ps + [p])[k])
  {
  }

  lemma EmptyFormat(args: VaList)
    ensures Formatted([], args) == []
  {
  }

  // ---------------------------------------------------------------- formats in full

  /** The format of a string alone prints the string. */
  lemma StringFormat(args: VaList)
    ensures Formatted("%s", args) == if args.slot(0) != 0 then args.text(args.slot(0)) else "(null)"
  {
    hide RenderConversion;
    var d := Directive(false, false, 0, Int32, 's');
    assert SpellAll([]) == [] && [] + SpellPiece(Conversion(d)) == "%s";
    AppendPiece([], Conversion(d), args);
    EmptyFormat(args);
    assert ConversionsIn([]) == {};
    StringShown(d, args.slot(0), args.text);
  }

  /** A character that is no conversion is printed in place of its specification. */
  lemma UnknownConversion(c: CChar, args: VaList)
    requires c != '\0' && c !in "%-0123456789ztlLhdiuoxXpcs"
    ensures Formatted(['%', c], args) == [c]
  {
    var fmt: CString := ['%', c];
    NotSpecial(c);
    RunsParse(fmt, 1, 1, 1, 1, 1);
    assert ParseFrom(fmt, 2) == [];
    assert ParseFrom(fmt, 0) == [Literal(c)];
    assert [Literal(c)][1..] == [] && Render([], 0, args) == [];
  }

  /** The characters a specification is made of. */
  lemma SpecificationCharacters(c: CChar)
    ensures IsModifier(c) <==> c in "ztlLh"
    ensures IsConversion(c) <==> c in "diuoxXpcs"
    ensures IsDecimal(c) <==> c in "0123456789"
  {
    var m, v, t := "ztlLh", "diuoxXpcs", "0123456789";
    assert m[0] == 'z' && m[1] == 't' && m[2] == 'l' && m[3] == 'L' && m[4] == 'h';
    assert v[0] == 'd' && v[1] == 'i' && v[2] == 'u' && v[3] == 'o' && v[4] == 'x' && v[5] == 'X';
    assert v[6] == 'p' && v[7] == 'c' && v[8] == 's';
    if IsDecimal(c) {
      assert t[c as int - '0' as int] == c;
    }
  }

  lemma NotSpecial(c: CChar)
    requires c !in "%-0123456789ztlLhdiuoxXpcs"
    ensures c != '-' && c != '%' && c != '0' && !IsDecimal(c) && !IsModifier(c) && !IsConversion(c)
  {
    var s := "%-0123456789ztlLhdiuoxXpcs";
    SpecificationCharacters(c);
    assert s[0] == '%' && s[1] == '-' && s[2] == '0';
    assert s == "%-" + "0123456789" + "ztlLh" + "diuoxXpcs";
    assert s[2..12] == "0123456789" && s[12..17] == "ztlLh" && s[17..] == "diuoxXpcs";
    assert c !in s[2..12] && c !in s[12..17] && c !in s[17..];
  }

  /** A format that breaks off after the flag, in the width or in the modifier prints nothing for it. */
  lemma UnfinishedFormats(args: VaList)
    ensures Formatted("%-", args) == [] && Formatted("%5", args) == [] && Formatted("%l", args) == []
  {
    TwoCharacters("%-", args);
    TwoCharacters("%5", args);
    TwoCharacters("%l", args);
  }

  lemma TwoCharacters(fmt: CString, args: VaList)
    requires |fmt| == 2 && fmt[0] == '%' && (fmt[1] == '-' || fmt[1] == '5' || fmt[1] == 'l')
    ensures Formatted(fmt, args) == []
  {
    assert DashEnd(fmt, 2) == DigitsEnd(fmt, 2) == ModifiersEnd(fmt, 2) == 2;
    assert ParseDirective(fmt, 1) == (Unfinished, 2);
    assert ParseFrom(fmt, 2) == [];
    assert ParseFrom(fmt, 0) == [Unfinished];
    assert [Unfinished][1..] == [] && Render([], 0, args) == [];
  }

  /** Fields in full: padding with zeros and blanks, signs, letters and the order of digits. */
  lemma FieldExamples(text: U64 -> CString)
    ensures RenderConversion(Directive(true, false, 6, Char8, 'd'), 0x1FE, text) == "-2    "
    ensures RenderConversion(Directive(false, false, 5, Short16, 'u'), 0x1_0141, text) == "  321"
    ensures RenderConversion(Directive(false, true, 6, Int32, 'X'), 0xBEF, text) == "000BEF"
    ensures RenderConversion(Directive(false, true, 7, Long64, 'p'), 0x1F, text) == "0x0001f"
  {
    hide Numeral, RenderConversion;
    NumeralOf2();
    NumberExample(Directive(true, false, 6, Char8, 'd'), 0x1FE, text, -2, "2");
    NumeralOf321();
    NumberExample(Directive(false, false, 5, Short16, 'u'), 0x1_0141, text, 321, "321");
    NumeralOfBef();
    NumberExample(Directive(false, true, 6, Int32, 'X'), 0xBEF, text, 0xBEF, "BEF");
    NumeralOf1f();
    PointerExample(Directive(false, true, 7, Long64, 'p'), 0x1F, text, "1f");
    Paddings();
    assert ['-'] + "2" + "    " == "-2    " && "  " + [] + "321" == "  321" && [] + "000" + "BEF" == "000BEF";
    assert ['0', 'x'] + "000" + "1f" == "0x0001f";
  }

  lemma Paddings()
    ensures seq(2, _ => ' ') == "  " && seq(4, _ => ' ') == "    " && seq(3, _ => '0') == "000"
  {
  }

  lemma NumberExample(d: Directive, w: U64, text: U64 -> CString, v: int, digits: seq<CChar>)
    requires d.conv == 'd' || d.conv == 'u' || d.conv == 'X'
    requires Denotes(v, d, w) && digits == Numeral(if v < 0 then -v else v, if d.conv == 'X' then 16 else 10, false)
    ensures RenderConversion(d, w, text) == NumberField(if v < 0 then ['-'] else [], digits, d)
  {
    hide Numeral, Justify, NumberField;
    GivenDenotes(d, w);
    SameRemainder(v, Given(d, w), d, w);
    JustifiedNumber(Prefix(d, w), digits, d);
  }

  lemma PointerExample(d: Directive, w: U64, text: U64 -> CString, digits: seq<CChar>)
    requires d.conv == 'p' && w != 0 && digits == Numeral(w, 16, true)
    ensures RenderConversion(d, w, text) == NumberField(['0', 'x'], digits, d)
  {
    hide Numeral, Justify, NumberField;
    JustifiedNumber(['0', 'x'], digits, d);
  }

  /** The argument denotes one number only. */
  lemma SameRemainder(v: int, u: int, d: Directive, w: U64)
    requires Denotes(v, d, w) && Denotes(u, d, w)
    ensures v == u
  {
    var m := Values(d.size);
    assert -m < v - u < m;
    hide Denotes, Values;
    assert (w - v) % m == 0 && (w - u) % m == 0 by { DenotesRemainder(v, d, w); DenotesRemainder(u, d, w); }
    var x, y := (w - v) / m, (w - u) / m;
    assert w - v == x * m && w - u == y * m;
    assert v - u == (y - x) * m;
    MultipleInside(y - x, m);
  }

  lemma DenotesRemainder(v: int, d: Directive, w: U64)
    requires Denotes(v, d, w)
    ensures (w - v) % Values(d.size) == 0
  {
  }

  lemma MultipleInside(q: int, m: int)
    requires 0 < m && -m < q * m < m
    ensures q == 0
  {
  }

  lemma NumeralOf2()
    ensures Numeral(2, 10, false) == "2"
  {
  }

  lemma NumeralOf321()
    ensures Numeral(321, 10, false) == "321"
  {
    assert Numeral(3, 10, false) == "3" && Numeral(32, 10, false) == "32";
  }

  lemma NumeralOfBef()
    ensures Numeral(0xBEF, 16, false) == "BEF"
  {
    assert Numeral(0xB, 16, false) == "B" && Numeral(0xBE, 16, false) == "BE";
  }

  lemma NumeralOf1f()
    ensures Numeral(0x1F, 16, true) == "1f"
  {
    assert Numeral(1, 16, true) == "1";
  }
}
