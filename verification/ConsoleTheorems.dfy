/** What is on the screen, in pixels of the font, and that the pixels determine the text. */
module ConsoleTheorems {
  import opened Words
  import opened Terminal
  import opened Console

  /** Pixel (`y`, `x`) of the last `maxY` of the lines: a bit of a glyph in white, or black. */
  function TextPixel(font: Font, lines: seq<Line>, maxY: nat, y: nat, x: nat): U32
    requires Ascii(lines)
  {
    var line := y / 16 + (if |lines| <= maxY then 0 else |lines| - maxY);
    if y / 16 < maxY && line < |lines| && x / 8 < |lines[line]| && Lit(font, lines[line][x / 8], y % 16, x % 8)
    then 0xFFFF_FFFF else 0
  }

  lemma WantIsTextPixel(font: Font, lines: seq<Line>, maxY: nat, y: nat, x: nat)
    requires Ascii(lines)
    ensures Want(font, lines, maxY, y, x) == TextPixel(font, lines, maxY, y, x)
  {
    hide Glyph, Lit;
    var line := y / 16 + (if |lines| <= maxY then 0 else |lines| - maxY);
    if line < |lines| && x / 8 < |lines[line]| {
      GlyphIsLit(font, lines[line][x / 8], y % 16, x % 8);
    }
  }

  /**
   Every pixel of the screen: white exactly where the last lines of the text have a character with
   that bit of its glyph set, and black everywhere else, margins included.
   */
  lemma PixelShown(screen: Framebuffer, y: nat, x: nat)
    requires screen.Valid() && y < screen.height && x < screen.width
    ensures Ascii(Layout(screen.text, screen.maxX)) && Idx(screen.width, y, x) < screen.fb.Length
    ensures screen.fb[Idx(screen.width, y, x)]
              == TextPixel(screen.font, Layout(screen.text, screen.maxX), screen.maxY, y, x)
  {
    hide Layout, Want;
    var lines := Layout(screen.text, screen.maxX);
    WantIsTextPixel(screen.font, lines, screen.maxY, y, x);
    assert screen.fb[..][Idx(screen.width, y, x)] == Want(screen.font, lines, screen.maxY, y, x);
  }

  /** The text's characters as the screen takes them: no NULs, and a question mark for what is not ASCII. */
  lemma {:induction false} SanitizedCharacters(text: seq<CChar>)
    requires '\0' !in text
    ensures |Sanitized(text)| == |text|
    ensures forall k :: 0 <= k < |text| ==> Sanitized(text)[k] == if text[k] as int >= 128 then '?' else text[k]
  {
    if text != [] {
      SanitizedCharacters(text[..|text| - 1]);
    }
  }

  lemma {:induction false} NulsAreNotShown(a: seq<CChar>, b: seq<CChar>)
    ensures Sanitized(a + ['\0'] + b) == Sanitized(a + b)
    decreases |b|
  {
    if b == [] {
      assert (a + ['\0'] + b)[..|a|] == a && a + b == a;
    } else {
      var n := |b| - 1;
      assert (a + ['\0'] + b)[..|a| + 1 + n] == a + ['\0'] + b[..n];
      assert (a + b)[..|a| + n] == a + b[..n];
      NulsAreNotShown(a, b[..n]);
    }
  }

  // ---------------------------------------------------------------- reading the screen

  predicate Printable(c: CChar) { 32 <= c as int < 127 }

  predicate AllPrintable(lines: seq<Line>) {
    forall k, j :: 0 <= k < |lines| && 0 <= j < |lines[k]| ==> Printable(lines[k][j])
  }

  function GlyphRow(font: Font, c: CChar, j: nat): bv8
    requires c as int < 128 && j < 16
  {
    font[16 * c as int + j]
  }

  /** A font in which the blank is blank and no two printable characters look the same. */
  predicate Legible(font: Font) {
    && (forall j: nat :: j < 16 ==> GlyphRow(font, ' ', j) == 0)
    && (forall c: CChar, d: CChar :: Printable(c) && Printable(d) && c != d ==> Differ(font, c, d))
  }

  predicate Differ(font: Font, c: CChar, d: CChar)
    requires Printable(c) && Printable(d)
  {
    exists j: nat :: j < 16 && GlyphRow(font, c, j) != GlyphRow(font, d, j)
  }

  /** The character in a cell of the screen, a blank where there is none. */
  function CharAt(lines: seq<Line>, maxY: nat, row: nat, col: nat): CChar {
    var line := row + (if |lines| <= maxY then 0 else |lines| - maxY);
    if row < maxY && line < |lines| && col < |lines[line]| then lines[line][col] else ' '
  }

  lemma CellPixel(font: Font, lines: seq<Line>, maxY: nat, row: nat, col: nat, j: nat, i: nat)
    requires Legible(font) && Ascii(lines) && AllPrintable(lines) && j < 16 && i < 8
    ensures var c := CharAt(lines, maxY, row, col);
            && Printable(c)
            && (Want(font, lines, maxY, row * 16 + j, col * 8 + i) == 0xFFFF_FFFF <==> RowBit(GlyphRow(font, c, j), i))
  {
    hide Differ, RowBit;
    NoBits(i);
    assert GlyphRow(font, ' ', j) == 0;
    assert (row * 16 + j) / 16 == row && (row * 16 + j) % 16 == j;
    assert (col * 8 + i) / 8 == col && (col * 8 + i) % 8 == i;
  }

  lemma NoBits(i: nat)
    requires i < 8
    ensures !RowBit(0, i)
  {
  }

  lemma SomeBitDiffers(b: bv8, c: bv8) returns (i: nat)
    requires b != c
    ensures i < 8 && RowBit(b, i) != RowBit(c, i)
  {
    i := 0;
    while i < 7 && RowBit(b, i) == RowBit(c, i)
      invariant i <= 7 && forall k :: 0 <= k < i ==> RowBit(b, k) == RowBit(c, k)
    {
      i := i + 1;
    }
    if RowBit(b, i) == RowBit(c, i) {
      SameBits(b, c);
    }
  }

  lemma SameBits(b: bv8, c: bv8)
    requires forall k :: 0 <= k < 8 ==> RowBit(b, k) == RowBit(c, k)
    ensures b == c
  {
    assert RowBit(b, 0) == RowBit(c, 0) && RowBit(b, 1) == RowBit(c, 1);
    assert RowBit(b, 2) == RowBit(c, 2) && RowBit(b, 3) == RowBit(c, 3);
    assert RowBit(b, 4) == RowBit(c, 4) && RowBit(b, 5) == RowBit(c, 5);
    assert RowBit(b, 6) == RowBit(c, 6) && RowBit(b, 7) == RowBit(c, 7);
  }

  /**
   The screen can be read: with a legible font, two texts that give the same pixels have the same
   character in every cell, blanks and cells past the end being the same thing.
   */
  lemma EqualScreensShowEqualText(
    fb: seq<U32>, width: nat, height: nat, font: Font, a: seq<Line>, b: seq<Line>, maxY: nat, row: nat, col: nat)
    requires Legible(font) && Ascii(a) && Ascii(b) && AllPrintable(a) && AllPrintable(b)
    requires Shows(fb, width, height, font, a, maxY) && Shows(fb, width, height, font, b, maxY)
    requires row * 16 + 16 <= height && col * 8 + 8 <= width
    ensures CharAt(a, maxY, row, col) == CharAt(b, maxY, row, col)
  {
    hide Want, RowBit, GlyphRow, CharAt;
    var c, d := CharAt(a, maxY, row, col), CharAt(b, maxY, row, col);
    EqualPixel(fb, width, height, font, a, b, maxY, row, col, 0, 0);
    if c != d {
      assert Differ(font, c, d);
      var j: nat :| j < 16 && GlyphRow(font, c, j) != GlyphRow(font, d, j);
      var i := SomeBitDiffers(GlyphRow(font, c, j), GlyphRow(font, d, j));
      EqualPixel(fb, width, height, font, a, b, maxY, row, col, j, i);
    }
  }

  lemma EqualPixel(
    fb: seq<U32>, width: nat, height: nat, font: Font, a: seq<Line>, b: seq<Line>, maxY: nat, row: nat, col: nat,
    j: nat, i: nat)
    requires Legible(font) && Ascii(a) && Ascii(b) && AllPrintable(a) && AllPrintable(b)
    requires Shows(fb, width, height, font, a, maxY) && Shows(fb, width, height, font, b, maxY)
    requires row * 16 + 16 <= height && col * 8 + 8 <= width && j < 16 && i < 8
    ensures var c, d := CharAt(a, maxY, row, col), CharAt(b, maxY, row, col);
            Printable(c) && Printable(d) && RowBit(GlyphRow(font, c, j), i) == RowBit(GlyphRow(font, d, j), i)
  {
    hide Want, RowBit, GlyphRow, CharAt, Legible;
    CellPixel(font, a, maxY, row, col, j, i);
    CellPixel(font, b, maxY, row, col, j, i);
    assert fb[Idx(width, row * 16 + j, col * 8 + i)] == Want(font, a, maxY, row * 16 + j, col * 8 + i);
  }
}
