/**
 The framebuffer console: a pixel array, a cursor, an in-place scroll and lazy wrapping, shown to
 display the end of the laid-out text.
 */
module Console {
  import opened Words
  import opened Terminal

  const FONT_WIDTH: nat := 8
  const FONT_HEIGHT: nat := 16

  /** One byte per pixel row, sixteen rows a character, the leftmost pixel in the top bit. */
  type Font = f: seq<bv8> | |f| == 2048 witness seq(2048, _ => 0)

  /** The pixels of one row, left to right. */
  predicate RowBit(b: bv8, i: nat)
    requires i < FONT_WIDTH
  {
    match i
    case 0 => b & 0x80 != 0
    case 1 => b & 0x40 != 0
    case 2 => b & 0x20 != 0
    case 3 => b & 0x10 != 0
    case 4 => b & 8 != 0
    case 5 => b & 4 != 0
    case 6 => b & 2 != 0
    case _ => b & 1 != 0
  }

  /** A pixel is all on or all off. */
  function Ink(on: bool): U32 {
    if on then 0xFFFF_FFFF else 0
  }

  /** Pixel (`j`, `i`) of the glyph of an ASCII character. */
  function Glyph(font: Font, c: CChar, j: nat, i: nat): U32
    requires c as int < 128 && j < FONT_HEIGHT && i < FONT_WIDTH
  {
    Ink(RowBit(font[c as int * FONT_HEIGHT + j], i))
  }

  /** A pixel of a glyph is white if its bit in the font is set, and black otherwise. */
  lemma GlyphBits(font: Font, c: CChar, j: nat, i: nat)
    requires c as int < 128 && j < 16 && i < 8
    ensures Glyph(font, c, j, i) == if (font[16 * c as int + j] >> (7 - i)) & 1 == 1 then 0xFFFF_FFFF else 0
  {
    BitAt(font[16 * c as int + j], i);
  }

  /** Bit `i` from the left in row `j` of a character of the font. */
  predicate Lit(font: Font, c: CChar, j: nat, i: nat)
    requires c as int < 128 && j < 16 && i < 8
  {
    (font[16 * c as int + j] >> (7 - i)) & 1 == 1
  }

  lemma BitAt(b: bv8, i: nat)
    requires i < 8
    ensures RowBit(b, i) <==> (b >> (7 - i)) & 1 == 1
  {
    match i
    case 0 => case 1 => case 2 => case 3 => case 4 => case 5 => case 6 => case _ =>
  }

  lemma GlyphIsLit(font: Font, c: CChar, j: nat, i: nat)
    requires c as int < 128 && j < 16 && i < 8
    ensures Glyph(font, c, j, i) == if Lit(font, c, j, i) then 0xFFFF_FFFF else 0
  {
    GlyphBits(font, c, j, i);
  }

  /** The index of the pixel in row `y` and column `x`. */
  function Idx(width: nat, y: nat, x: nat): nat {
    y * width + x
  }

  predicate Ascii(lines: seq<Line>) {
    forall k :: 0 <= k < |lines| ==> forall j :: 0 <= j < |lines[k]| ==> lines[k][j] as int < 128
  }

  function Shown(lines: seq<Line>, maxY: nat): nat {
    Min(|lines|, maxY)
  }

  /** What pixel (`y`, `x`) shows when the last `maxY` of the lines are on the screen. */
  function Want(font: Font, lines: seq<Line>, maxY: nat, y: nat, x: nat): U32
    requires Ascii(lines)
  {
    var row, col := y / FONT_HEIGHT, x / FONT_WIDTH;
    var top := |lines| - Shown(lines, maxY);
    if row < Shown(lines, maxY) && col < |lines[top + row]|
    then Glyph(font, lines[top + row][col], y % FONT_HEIGHT, x % FONT_WIDTH)
    else 0
  }

  /** Every pixel of the screen, margins included, is the one the lines call for. */
  ghost predicate Shows(fb: seq<U32>, width: nat, height: nat, font: Font, lines: seq<Line>, maxY: nat)
    requires Ascii(lines)
  {
    && |fb| == width * height
    && forall y: nat, x: nat | y < height && x < width ::
         Idx(width, y, x) < |fb| && fb[Idx(width, y, x)] == Want(font, lines, maxY, y, x)
  }

  // ---------------------------------------------------------------- pixel indices

  lemma MulAssoc(a: nat, b: nat, c: nat)
    ensures a * b * c == a * (b * c) == c * (a * b)
  {
  }

  /** Whole rows of text fit the screen, and the products the routines form fit 32 bits. */
  lemma RowsFit(width: nat, height: nat, maxY: nat)
    requires width * height < TWO_32 && 1 <= width && 2 <= maxY && maxY * FONT_HEIGHT <= height
    ensures var row := FONT_HEIGHT * width;
            && 0 < row && 0 < (maxY - 1) * row
            && row + (maxY - 1) * row == maxY * row <= width * height
            && (maxY - 1) * FONT_HEIGHT < TWO_32
            && width * ((maxY - 1) * FONT_HEIGHT) == (maxY - 1) * row
  {
    MulAssoc(maxY, FONT_HEIGHT, width);
    MulAssoc(maxY - 1, FONT_HEIGHT, width);
    MulMono(maxY * FONT_HEIGHT, height, width);
    MulMono(1, width, height);
    MulMono(1, maxY - 1, FONT_HEIGHT * width);
  }

  lemma IdxBound(width: nat, height: nat, y: nat, x: nat)
    requires y < height && x < width
    ensures Idx(width, y, x) < width * height
  {
    assert (y + 1) * width <= height * width;
  }

  /** Distinct rows do not overlap: an index lies in a stretch of one row only if it is of that row. */
  lemma IdxInStretch(width: nat, y: nat, x: nat, y0: nat, x0: nat, len: nat)
    requires x < width && x0 + len <= width
    ensures Idx(width, y0, x0) <= Idx(width, y, x) < Idx(width, y0, x0) + len <==> y == y0 && x0 <= x < x0 + len
  {
    if y < y0 {
      assert (y + 1) * width <= y0 * width;
    } else if y0 < y {
      assert (y0 + 1) * width <= y * width;
    }
  }

  lemma IdxBelow(width: nat, y: nat, x: nat, n: nat)
    requires x < width
    ensures Idx(width, y + n, x) == Idx(width, y, x) + n * width
    ensures Idx(width, y, x) < n * width <==> y < n
  {
    assert (y + n) * width == y * width + n * width;
    if y < n {
      assert (y + 1) * width <= n * width;
    } else {
      assert n * width <= y * width;
    }
  }

  // ---------------------------------------------------------------- scrolling

  /** All rows moved up by `row` pixels in one go, `keep` pixels of them, with blanks behind. */
  function ShiftedUp(s: seq<U32>, row: nat, keep: nat): seq<U32>
    requires row + keep <= |s|
  {
    s[row..row + keep] + seq(row, _ => 0) + s[row + keep..]
  }

  predicate Scrolled(before: seq<U32>, after: seq<U32>, row: int, keep: int) {
    0 <= row && 0 <= keep && row + keep <= |before| && after == ShiftedUp(before, row, keep)
  }

  lemma ShiftedAt(s: seq<U32>, row: nat, keep: nat, p: nat)
    requires row + keep <= |s| && p < |s|
    ensures ShiftedUp(s, row, keep)[p] == if p < keep then s[p + row] else if p < keep + row then 0 else s[p]
  {
  }

  /** A screen so described is the shifted one. */
  lemma ShiftedFrom(s: seq<U32>, t: seq<U32>, row: nat, keep: nat)
    requires row + keep <= |s| == |t|
    requires forall p :: 0 <= p < |s| ==> t[p] == if p < keep then s[p + row] else if p < keep + row then 0 else s[p]
    ensures t == ShiftedUp(s, row, keep)
  {
    var u := ShiftedUp(s, row, keep);
    forall p | 0 <= p < |s| ensures t[p] == u[p] {
      ShiftedAt(s, row, keep, p);
    }
  }

  /** Scrolling a full screen up makes room for an empty last line. */
  lemma ScrollShows(fb: seq<U32>, width: nat, height: nat, font: Font, lines: seq<Line>, maxY: nat)
    requires Ascii(lines) && 2 <= maxY && maxY * FONT_HEIGHT <= height && maxY <= |lines|
    requires Shows(fb, width, height, font, lines, maxY)
    ensures Ascii(lines + [[]])
    ensures FONT_HEIGHT * width + (maxY - 1) * (FONT_HEIGHT * width) <= |fb|
    ensures var after := ShiftedUp(fb, FONT_HEIGHT * width, (maxY - 1) * (FONT_HEIGHT * width));
            Shows(after, width, height, font, lines + [[]], maxY)
  {
    var row, keep := FONT_HEIGHT * width, (maxY - 1) * (FONT_HEIGHT * width);
    MulAssoc(maxY, FONT_HEIGHT, width);
    MulMono(maxY * FONT_HEIGHT, height, width);
    assert row + keep == maxY * (FONT_HEIGHT * width);
    var after := ShiftedUp(fb, row, keep);
    var lines' := lines + [[]];
    forall y: nat, x: nat | y < height && x < width
      ensures Idx(width, y, x) < |after| && after[Idx(width, y, x)] == Want(font, lines', maxY, y, x)
    {
      IdxBound(width, height, y, x);
      ScrollPixel(fb, width, height, font, lines, maxY, y, x);
    }
  }

  /** One more, empty, line on a full screen: every row shows what the row below it showed. */
  lemma WantScrolled(font: Font, lines: seq<Line>, maxY: nat, y: nat, x: nat)
    requires Ascii(lines) && Ascii(lines + [[]]) && 2 <= maxY <= |lines|
    ensures Want(font, lines + [[]], maxY, y, x) ==
              if y < (maxY - 1) * FONT_HEIGHT then Want(font, lines, maxY, y + FONT_HEIGHT, x) else 0
    ensures maxY * FONT_HEIGHT <= y ==> Want(font, lines, maxY, y, x) == 0
  {
    assert (y + FONT_HEIGHT) / FONT_HEIGHT == y / FONT_HEIGHT + 1;
    assert (y + FONT_HEIGHT) % FONT_HEIGHT == y % FONT_HEIGHT;
  }

  lemma ScrollPixel(fb: seq<U32>, width: nat, height: nat, font: Font, lines: seq<Line>, maxY: nat, y: nat, x: nat)
    requires Ascii(lines) && Ascii(lines + [[]]) && 2 <= maxY && maxY * FONT_HEIGHT <= height && maxY <= |lines|
    requires Shows(fb, width, height, font, lines, maxY)
    requires y < height && x < width && Idx(width, y, x) < |fb|
    requires FONT_HEIGHT * width + (maxY - 1) * (FONT_HEIGHT * width) <= |fb|
    ensures ShiftedUp(fb, FONT_HEIGHT * width, (maxY - 1) * (FONT_HEIGHT * width))[Idx(width, y, x)]
              == Want(font, lines + [[]], maxY, y, x)
  {
    hide Want;
    var n := (maxY - 1) * FONT_HEIGHT;
    WantScrolled(font, lines, maxY, y, x);
    IdxBelow(width, y, x, n);
    IdxBelow(width, y, x, maxY * FONT_HEIGHT);
    IdxBelow(width, y, x, FONT_HEIGHT);
    MulAssoc(maxY - 1, FONT_HEIGHT, width);
    MulAssoc(maxY, FONT_HEIGHT, width);
    ShiftedAt(fb, FONT_HEIGHT * width, (maxY - 1) * (FONT_HEIGHT * width), Idx(width, y, x));
    hide Idx, ShiftedUp;
    if y < n {
      assert fb[Idx(width, y + FONT_HEIGHT, x)] == Want(font, lines, maxY, y + FONT_HEIGHT, x);
    } else if maxY * FONT_HEIGHT <= y {
      assert fb[Idx(width, y, x)] == Want(font, lines, maxY, y, x);
    }
  }

  /** One more, empty, line while the screen still has room below: nothing to redraw. */
  lemma WantOpened(font: Font, lines: seq<Line>, maxY: nat, y: nat, x: nat)
    requires Ascii(lines) && Ascii(lines + [[]]) && |lines| < maxY
    ensures Want(font, lines + [[]], maxY, y, x) == Want(font, lines, maxY, y, x)
  {
  }

  /** The lines with one more character at the end of the last. */
  function Extended(lines: seq<Line>, c: CChar): seq<Line>
    requires lines != []
  {
    lines[|lines| - 1 := lines[|lines| - 1] + [c]]
  }

  /** One more character on the last line changes one cell, to its glyph. */
  lemma WantExtended(font: Font, lines: seq<Line>, c: CChar, maxY: nat, y: nat, x: nat)
    requires lines != [] && Ascii(lines) && Ascii(Extended(lines, c)) && c as int < 128 && 0 < maxY
    ensures Want(font, Extended(lines, c), maxY, y, x) ==
              if y / FONT_HEIGHT == Shown(lines, maxY) - 1 && x / FONT_WIDTH == |lines[|lines| - 1]|
              then Glyph(font, c, y % FONT_HEIGHT, x % FONT_WIDTH)
              else Want(font, lines, maxY, y, x)
  {
    var row, col := y / FONT_HEIGHT, x / FONT_WIDTH;
    var n := |lines| - 1;
    var top := |lines| - Shown(lines, maxY);
    if row == Shown(lines, maxY) - 1 {
      assert top + row == n;
    }
  }

  /** The lines just before a character is drawn: with a fresh last one if it opens a line. */
  function Ready(lines: seq<Line>, ch: CChar, width: nat): (r: seq<Line>)
    requires lines != []
    ensures r != []
  {
    if ch == '\n' || |lines[|lines| - 1]| == width then lines + [[]] else lines
  }

  lemma ReadyTyped(lines: seq<Line>, c: CChar, width: nat)
    requires lines != [] && c != '\0'
    ensures var ch := if c as int >= 128 then '?' else c;
            Typed(lines, c, width)
              == if ch == '\n' then Ready(lines, ch, width) else Extended(Ready(lines, ch, width), ch)
  {
    var ch := if c as int >= 128 then '?' else c;
    if ch != '\n' && |lines[|lines| - 1]| == width {
      assert [] + [ch] == [ch];
      assert Extended(lines + [[]], ch) == lines + [[ch]];
    }
  }

  lemma AsciiGrows(lines: seq<Line>, c: CChar)
    requires Ascii(lines)
    ensures Ascii(lines + [[]])
    ensures lines != [] && c as int < 128 ==> Ascii(Extended(lines, c))
  {
  }

  // ---------------------------------------------------------------- the console

  class Framebuffer {
    const fb: array<U32>
    const font: Font
    const width: U32
    const maxX: U32
    const maxY: U32
    ghost const height: U32
    var posX: U32
    var posY: U32
    ghost var text: seq<CChar>

    /** The sizes the routines rely on: one column and two rows of text, 32-bit pixel indices. */
    ghost predicate Sized()
    {
      && width * height < TWO_32 && fb.Length == width * height
      && maxX == width / FONT_WIDTH && maxY == height / FONT_HEIGHT
      && 1 <= maxX && 2 <= maxY
    }

    /** The cursor is behind the last of the lines, which are what the screen shows. */
    ghost predicate ShowsLines(lines: seq<Line>)
      reads this, fb
    {
      && Sized() && lines != [] && Ascii(lines)
      && posY == Shown(lines, maxY) - 1 && posX == |lines[|lines| - 1]| <= maxX
      && Shows(fb[..], width, height, font, lines, maxY)
    }

    /** The cell shows the character: white where its bits in the font are set, black elsewhere. */
    ghost predicate Inked(ch: CChar, row: nat, col: nat)
      requires ch as int < 128
      reads fb
    {
      forall j: nat, i: nat | j < 16 && i < 8 ::
        && Idx(width, row * 16 + j, col * 8 + i) < fb.Length
        && fb[Idx(width, row * 16 + j, col * 8 + i)] == if Lit(font, ch, j, i) then 0xFFFF_FFFF else 0
    }

    /** The screen shows the text given so far. */
    ghost predicate Valid()
      reads this, fb
    {
      Sized() && ShowsLines(Layout(text, maxX))
    }

    /** `fb_scrollup`: the ascending in-place copy is the simultaneous shift. */
    method ScrollUp()
      requires Sized()
      modifies fb
      ensures Scrolled(old(fb[..]), fb[..], FONT_HEIGHT * width, (maxY - 1) * (FONT_HEIGHT * width))
    {
      RowsFit(width, height, maxY);
      var count: nat := Wrap32(width * Wrap32((maxY - 1) * FONT_HEIGHT));
      var row: nat := Wrap32(width * FONT_HEIGHT);
      assert row == FONT_HEIGHT * width && count == (maxY - 1) * (FONT_HEIGHT * width);
      ShiftUp(fb, row, count);
    }

    /** The glyph part of `fb_output`: sixteen rows of eight pixels at the cursor. */
    method DrawGlyph(ch: CChar)
      requires Sized() && ch as int < 128 && posX < maxX && posY < maxY
      modifies fb
      ensures forall y: nat, x: nat | y < height && x < width ::
                Idx(width, y, x) < fb.Length &&
                fb[Idx(width, y, x)] ==
                  if y / FONT_HEIGHT == posY && x / FONT_WIDTH == posX
                  then Glyph(font, ch, y % FONT_HEIGHT, x % FONT_WIDTH)
                  else old(fb[Idx(width, y, x)])
    {
      var cur := posX * FONT_WIDTH + Wrap32(Wrap32(posY * FONT_HEIGHT) * width);
      CellFits(posY, posX);
      AllOnScreen();
      hide Sized, RowBit;
      for j := 0 to FONT_HEIGHT
        invariant cur == Idx(width, posY * FONT_HEIGHT + j, posX * FONT_WIDTH)
        invariant forall y: nat, x: nat | y < height && x < width ::
                    Idx(width, y, x) < fb.Length &&
                    fb[Idx(width, y, x)] ==
                      if posY * FONT_HEIGHT <= y < posY * FONT_HEIGHT + j && x / FONT_WIDTH == posX
                      then Glyph(font, ch, y - posY * FONT_HEIGHT, x % FONT_WIDTH)
                      else old(fb[Idx(width, y, x)])
      {
        ghost var before := fb[..];
        CellRow(posY, posX, j);
        var bits := font[ch as int * FONT_HEIGHT + j];
        DrawRow(fb, cur, bits);
        RowDrawn(before, fb[..], bits, posY * FONT_HEIGHT + j, posX);
        cur := cur + width;
      }
    }

    /** The first pixel of a cell, computed without wrapping. */
    lemma CellFits(row: nat, col: nat)
      requires Sized() && row < maxY && col < maxX
      ensures Wrap32(Wrap32(row * FONT_HEIGHT) * width) == row * FONT_HEIGHT * width
      ensures col * FONT_WIDTH + row * FONT_HEIGHT * width == Idx(width, row * FONT_HEIGHT, col * FONT_WIDTH)
    {
      var y := row * FONT_HEIGHT;
      MulMono(y, height, width);
      MulMono(1, width, height);
      MulMono(0, y, width);
      Unwrapped(y);
      Unwrapped(y * width);
    }

    lemma Unwrapped(x: int)
      requires 0 <= x < TWO_32
      ensures Wrap32(x) == x
    {
    }

    lemma AllOnScreen()
      requires Sized()
      ensures forall y: nat, x: nat | y < height && x < width :: Idx(width, y, x) < fb.Length
    {
      forall y: nat, x: nat | y < height && x < width ensures Idx(width, y, x) < fb.Length {
        IdxBound(width, height, y, x);
      }
    }

    lemma CellRow(row: nat, col: nat, j: nat)
      requires Sized() && row < maxY && col < maxX && j < FONT_HEIGHT
      ensures row * FONT_HEIGHT + j < height && col * FONT_WIDTH + FONT_WIDTH <= width
      ensures Idx(width, row * FONT_HEIGHT + j, col * FONT_WIDTH) + FONT_WIDTH <= fb.Length
      ensures Idx(width, row * FONT_HEIGHT + j + 1, col * FONT_WIDTH) ==
                Idx(width, row * FONT_HEIGHT + j, col * FONT_WIDTH) + width
    {
      var y := row * FONT_HEIGHT + j;
      IdxBound(width, height, y, col * FONT_WIDTH + FONT_WIDTH - 1);
      IdxBelow(width, y, col * FONT_WIDTH, 1);
    }

    /** `fb_init`: blanks the screen and prints a greeting, which in the source is a constant. */
    constructor (pixels: array<U32>, w: U32, h: U32, glyphs: Font, greeting: seq<CChar>)
      requires w * h < TWO_32 && pixels.Length == w * h && FONT_WIDTH <= w && 2 * FONT_HEIGHT <= h
      modifies pixels
      ensures Valid() && fb == pixels && width == w && height == h && font == glyphs && text == greeting
      ensures maxX == w / 8 && maxY == h / 16
    {
      fb, font, width, height := pixels, glyphs, w, h;
      maxX, maxY := w / FONT_WIDTH, h / FONT_HEIGHT;
      posX, posY, text := 0, 0, [];
      new;
      for i := 0 to fb.Length
        invariant forall p :: 0 <= p < i ==> fb[p] == 0
        invariant posX == 0 && posY == 0 && text == []
      {
        fb[i] := 0;
      }
      BlankShows();
      hide Valid;
      Print(greeting);
    }

    /** The console given a whole string, as `printf` does. */
    method Print(s: seq<CChar>)
      requires Valid()
      modifies this, fb
      ensures Valid() && text == old(text) + s
    {
      hide Valid;
      for i := 0 to |s|
        invariant Valid() && text == old(text) + s[..i]
      {
        Output(s[i]);
        assert s[..i + 1] == s[..i] + [s[i]];
      }
      assert s[..|s|] == s;
    }

    lemma BlankShows()
      requires Sized() && posX == 0 && posY == 0 && text == []
      requires forall p :: 0 <= p < fb.Length ==> fb[p] == 0
      ensures Valid()
    {
      AllChunksLast([], maxX);
      forall y: nat, x: nat | y < height && x < width
        ensures Idx(width, y, x) < fb.Length && fb[Idx(width, y, x)] == Want(font, [[]], maxY, y, x)
      {
        IdxBound(width, height, y, x);
      }
    }

    /** `fb_output`. */
    method Output(c: CChar)
      requires Valid()
      modifies this, fb
      ensures Valid() && text == old(text) + [c]
      ensures c != '\0' && c != '\n' ==> 0 < posX && Inked(if c as int >= 128 then '?' else c, posY, posX - 1)
    {
      assert 0 < maxX;
      hide Sized, Layout, ShowsLines, Inked, Typed, Ready, Extended;
      ghost var lines := Layout(text, maxX);
      LayoutSnoc(text, c, maxX);
      text := text + [c];
      if c != '\0' {
        var ch := if c as int >= 128 then '?' else c;
        ReadyTyped(lines, c, maxX);
        Show(ch, lines);
      }
    }

    /** What `fb_output` does with a character or a newline. */
    method Show(ch: CChar, ghost lines: seq<Line>)
      requires ShowsLines(lines) && ch as int < 128
      modifies `posX, `posY, fb
      ensures ch == '\n' ==> ShowsLines(Ready(lines, ch, maxX))
      ensures ch != '\n' ==> ShowsLines(Extended(Ready(lines, ch, maxX), ch)) && 0 < posX && Inked(ch, posY, posX - 1)
    {
      assert lines != [];
      hide Sized, ShowsLines, Inked, Ready;
      MakeRoom(ch, lines);
      if ch == '\n' {
        return;
      }
      Draw(ch, Ready(lines, ch, maxX));
    }

    /** The line breaks and scrolling of `fb_output`. */
    method MakeRoom(ch: CChar, ghost lines: seq<Line>)
      requires ShowsLines(lines)
      modifies `posX, `posY, fb
      ensures ShowsLines(Ready(lines, ch, maxX))
      ensures ch != '\n' ==> posX < maxX
    {
      AsciiGrows(lines, ' ');
      if ch == '\n' || posX == maxX {
        posX := 0;
        posY := posY + 1;
        if posY < maxY {
          NothingToRedraw(lines);
        }
      }
      if posY == maxY {
        posY := posY - 1;
        ghost var before := fb[..];
        ScrollUp();
        ScrollShows(before, width, height, font, lines, maxY);
      }
    }

    lemma GlyphInked(ch: CChar, row: nat, col: nat)
      requires Sized() && ch as int < 128 && row < maxY && col < maxX
      requires forall y: nat, x: nat | y < height && x < width ::
                 Idx(width, y, x) < fb.Length &&
                 (y / FONT_HEIGHT == row && x / FONT_WIDTH == col ==>
                    fb[Idx(width, y, x)] == Glyph(font, ch, y % FONT_HEIGHT, x % FONT_WIDTH))
      ensures Inked(ch, row, col)
    {
      hide Glyph, Lit, Idx;
      forall j: nat, i: nat | j < 16 && i < 8
        ensures Idx(width, row * 16 + j, col * 8 + i) < fb.Length
        ensures fb[Idx(width, row * 16 + j, col * 8 + i)] == if Lit(font, ch, j, i) then 0xFFFF_FFFF else 0
      {
        var y, x := row * 16 + j, col * 8 + i;
        assert y / 16 == row && y % 16 == j && x / 8 == col && x % 8 == i;
        GlyphIsLit(font, ch, j, i);
      }
    }

    lemma NothingToRedraw(lines: seq<Line>)
      requires Ascii(lines) && Ascii(lines + [[]]) && |lines| < maxY
      requires Shows(fb[..], width, height, font, lines, maxY)
      ensures Shows(fb[..], width, height, font, lines + [[]], maxY)
    {
      forall y: nat, x: nat | y < height && x < width
        ensures fb[..][Idx(width, y, x)] == Want(font, lines + [[]], maxY, y, x)
      {
        WantOpened(font, lines, maxY, y, x);
      }
    }

    /** The drawing end of `fb_output`. */
    method Draw(ch: CChar, ghost lines: seq<Line>)
      requires ShowsLines(lines) && posX < maxX && ch as int < 128
      modifies `posX, fb
      ensures ShowsLines(Extended(lines, ch)) && 0 < posX && Inked(ch, posY, posX - 1)
    {
      AsciiGrows(lines, ch);
      ghost var before := fb[..];
      DrawGlyph(ch);
      GlyphInked(ch, posY, posX);
      posX := posX + 1;
      forall y: nat, x: nat | y < height && x < width
        ensures fb[..][Idx(width, y, x)] == Want(font, Extended(lines, ch), maxY, y, x)
      {
        WantExtended(font, lines, ch, maxY, y, x);
        assert before[Idx(width, y, x)] == Want(font, lines, maxY, y, x);
      }
    }

    /** A drawn pixel row, read by coordinates. */
    lemma RowDrawn(before: seq<U32>, after: seq<U32>, bits: bv8, y0: nat, col: nat)
      requires |before| == |after| && y0 < height && col * FONT_WIDTH + FONT_WIDTH <= width
      requires forall y: nat, x: nat | y < height && x < width :: Idx(width, y, x) < |before|
      requires var cur := Idx(width, y0, col * FONT_WIDTH);
               && cur + FONT_WIDTH <= |after|
               && (forall i :: 0 <= i < FONT_WIDTH ==> after[cur + i] == Ink(RowBit(bits, i)))
               && (forall p :: 0 <= p < cur || cur + FONT_WIDTH <= p < |after| ==> after[p] == before[p])
      ensures forall y: nat, x: nat | y < height && x < width ::
                after[Idx(width, y, x)] ==
                  if y == y0 && x / FONT_WIDTH == col then Ink(RowBit(bits, x % FONT_WIDTH))
                  else before[Idx(width, y, x)]
    {
      var cur := Idx(width, y0, col * FONT_WIDTH);
      forall y: nat, x: nat | y < height && x < width
        ensures after[Idx(width, y, x)] ==
                  if y == y0 && x / FONT_WIDTH == col then Ink(RowBit(bits, x % FONT_WIDTH))
                  else before[Idx(width, y, x)]
      {
        IdxInStretch(width, y, x, y0, col * FONT_WIDTH, FONT_WIDTH);
        if y == y0 && x / FONT_WIDTH == col {
          assert Idx(width, y, x) == cur + x % FONT_WIDTH;
        }
      }
    }
  }

  /** The two loops of `fb_scrollup`; both counts are positive, so each runs at least once. */
  method ShiftUp(fb: array<U32>, row: nat, total: nat)
    requires row + total <= fb.Length && 0 < row && 0 < total
    modifies fb
    ensures fb[..] == ShiftedUp(old(fb[..]), row, total)
  {
    hide ShiftedUp;
    CopyUp(fb, row, total);
    Clear(fb, total, row);
    ShiftedFrom(old(fb[..]), fb[..], row, total);
  }

  method CopyUp(fb: array<U32>, row: nat, total: nat)
    requires row + total <= fb.Length && 0 < row
    modifies fb
    ensures forall p :: 0 <= p < total ==> fb[p] == old(fb[p + row])
    ensures forall p :: total <= p < fb.Length ==> fb[p] == old(fb[p])
  {
    var cur, count := 0, total;
    while count != 0
      invariant cur == total - count && 0 <= count
      invariant forall p :: 0 <= p < cur ==> fb[p] == old(fb[p + row])
      invariant forall p :: cur <= p < fb.Length ==> fb[p] == old(fb[p])
    {
      fb[cur] := fb[cur + row];
      cur := cur + 1;
      count := count - 1;
    }
  }

  method Clear(fb: array<U32>, start: nat, total: nat)
    requires start + total <= fb.Length
    modifies fb
    ensures forall p :: start <= p < start + total ==> fb[p] == 0
    ensures forall p :: 0 <= p < start || start + total <= p < fb.Length ==> fb[p] == old(fb[p])
  {
    var cur, count := start, total;
    while count != 0
      invariant cur == start + total - count && 0 <= count
      invariant forall p :: start <= p < cur ==> fb[p] == 0
      invariant forall p :: 0 <= p < start || cur <= p < fb.Length ==> fb[p] == old(fb[p])
    {
      fb[cur] := 0;
      cur := cur + 1;
      count := count - 1;
    }
  }

  /** The bitmap after `i` shifts to the left. */
  function ShiftedBits(b: bv8, i: nat): bv8
    requires i <= FONT_WIDTH
  {
    match i
    case 0 => b
    case 1 => b << 1
    case 2 => b << 2
    case 3 => b << 3
    case 4 => b << 4
    case 5 => b << 5
    case 6 => b << 6
    case 7 => b << 7
    case _ => 0
  }

  lemma TopBit(b: bv8, i: nat)
    requires i < FONT_WIDTH
    ensures ShiftedBits(b, i) & 0x80 != 0 <==> RowBit(b, i)
    ensures ShiftedBits(b, i) << 1 == ShiftedBits(b, i + 1)
  {
    match i
    case 0 => case 1 => case 2 => case 3 => case 4 => case 5 => case 6 => case _ =>
  }

  /** One pixel row of a glyph: the sign bit of the shifting bitmap is the next pixel. */
  method DrawRow(fb: array<U32>, cur: nat, bits: bv8)
    requires cur + FONT_WIDTH <= fb.Length
    modifies fb
    ensures forall i :: 0 <= i < FONT_WIDTH ==> fb[cur + i] == Ink(RowBit(bits, i))
    ensures forall p :: 0 <= p < cur || cur + FONT_WIDTH <= p < fb.Length ==> fb[p] == old(fb[p])
  {
    hide RowBit, ShiftedBits;
    var bitmap := bits;
    assert bitmap == ShiftedBits(bits, 0) by { FirstShift(bits); }
    for i := 0 to FONT_WIDTH
      invariant bitmap == ShiftedBits(bits, i)
      invariant forall k :: 0 <= k < i ==> fb[cur + k] == Ink(RowBit(bits, k))
      invariant forall p :: 0 <= p < cur || cur + i <= p < fb.Length ==> fb[p] == old(fb[p])
    {
      TopBit(bits, i);
      fb[cur + i] := Ink(bitmap & 0x80 != 0);
      bitmap := bitmap << 1;
    }
  }

  lemma FirstShift(b: bv8)
    ensures ShiftedBits(b, 0) == b
  {
  }
}
