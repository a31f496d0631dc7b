/**
 The text a console shows, defined from the characters it was given and nothing else: split the
 text at newlines, cut every piece into lines of the screen's width, and keep the last lines.
 */
module Terminal {
  import opened Words

  type Line = seq<CChar>

  /** The characters that reach the screen: NUL is dropped, non-ASCII shows as a question mark. */
  function Sanitized(text: seq<CChar>): seq<CChar> {
    if text == [] then []
    else
      var c := text[|text| - 1];
      var before := Sanitized(text[..|text| - 1]);
      if c == '\0' then before
      else if c as int >= 128 then before + ['?']
      else before + [c]
  }

  /** The pieces of a text between newlines; there is always a last one. */
  function Paragraphs(text: seq<CChar>): (p: seq<Line>)
    ensures p != []
  {
    if text == [] then [[]]
    else
      var c := text[0];
      Prepend(c, Paragraphs(text[1..]))
  }

  function Prepend(c: CChar, rest: seq<Line>): (p: seq<Line>)
    requires rest != []
    ensures p != []
  {
    if c == '\n' then [[]] + rest else [[c] + rest[0]] + rest[1..]
  }

  function Append(p: seq<Line>, c: CChar): (q: seq<Line>)
    requires p != []
    ensures q != []
  {
    var n := |p| - 1;
    if c == '\n' then p + [[]] else p[n := p[n] + [c]]
  }

  /** A paragraph cut into lines of the given width, all full but the last; an empty one is a line. */
  function Chunks(p: Line, width: nat): (lines: seq<Line>)
    requires 0 < width
    ensures lines != []
    decreases |p|
  {
    if |p| <= width then [p] else [p[..width]] + Chunks(p[width..], width)
  }

  function AllChunks(ps: seq<Line>, width: nat): (lines: seq<Line>)
    requires 0 < width
    ensures ps != [] ==> lines != []
  {
    if ps == [] then [] else Chunks(ps[0], width) + AllChunks(ps[1..], width)
  }

  /** All the lines a text has on a screen of the given width. */
  function Layout(text: seq<CChar>, width: nat): (lines: seq<Line>)
    requires 0 < width
    ensures lines != []
  {
    AllChunks(Paragraphs(Sanitized(text)), width)
  }

  // ---------------------------------------------------------------- the layout is the text

  function JoinedBy(ps: seq<Line>, sep: Line): Line {
    if ps == [] then [] else if |ps| == 1 then ps[0] else ps[0] + sep + JoinedBy(ps[1..], sep)
  }

  /** Splitting loses nothing: the pieces hold no newline, and joined by newlines they are the text. */
  lemma {:induction false} ParagraphsSplit(text: seq<CChar>)
    ensures JoinedBy(Paragraphs(text), ['\n']) == text
    ensures forall k :: 0 <= k < |Paragraphs(text)| ==> '\n' !in Paragraphs(text)[k]
  {
    if text != [] {
      ParagraphsSplit(text[1..]);
      var c, r := text[0], Paragraphs(text[1..]);
      var p := Prepend(c, r);
      if c == '\n' {
        assert p[1..] == r;
        assert text == ['\n'] + JoinedBy(r, ['\n']);
      } else {
        assert p[1..] == r[1..];
        assert text == [c] + JoinedBy(r, ['\n']);
      }
    }
  }

  /** Wrapping loses nothing: the lines of a paragraph are the paragraph, all full but the last. */
  lemma {:induction false} ChunksCut(p: Line, width: nat)
    requires 0 < width
    ensures JoinedBy(Chunks(p, width), []) == p
    ensures forall k :: 0 <= k < |Chunks(p, width)| - 1 ==> |Chunks(p, width)[k]| == width
    ensures p != [] ==> Chunks(p, width)[|Chunks(p, width)| - 1] != []
    decreases |p|
  {
    if |p| > width {
      ChunksCut(p[width..], width);
      assert p == p[..width] + p[width..];
      var lines, rest := Chunks(p, width), Chunks(p[width..], width);
      assert lines[1..] == rest;
      forall k | 0 <= k < |lines| - 1 ensures |lines[k]| == width {
        if k > 0 {
          assert lines[k] == rest[k - 1];
        }
      }
    }
  }

  // ---------------------------------------------------------------- adding one character

  /** The lines after one more character, for a character that is shown or is a newline. */
  function Advance(lines: seq<Line>, c: CChar, width: nat): seq<Line>
    requires lines != []
  {
    var n := |lines| - 1;
    if c == '\n' then lines + [[]]
    else if |lines[n]| == width then lines + [[c]]
    else lines[n := lines[n] + [c]]
  }

  /** What one character given to the console does to the lines. */
  function Typed(lines: seq<Line>, c: CChar, width: nat): seq<Line>
    requires lines != []
  {
    if c == '\0' then lines else if c as int >= 128 then Advance(lines, '?', width) else Advance(lines, c, width)
  }

  lemma {:induction false} ParagraphsSnoc(text: seq<CChar>, c: CChar)
    ensures Paragraphs(text + [c]) == Append(Paragraphs(text), c)
  {
    if text == [] {
      assert text + [c] == [c];
      assert Paragraphs([c][1..]) == [[]];
      assert [c] + [] == [c];
    } else {
      assert (text + [c])[1..] == text[1..] + [c];
      ParagraphsSnoc(text[1..], c);
      var d, r := text[0], Paragraphs(text[1..]);
      PrependSnoc(d, r, c);
    }
  }

  /** Putting a character in front of the pieces commutes with putting one behind them. */
  lemma PrependSnoc(d: CChar, r: seq<Line>, c: CChar)
    requires r != []
    ensures Prepend(d, Append(r, c)) == Append(Prepend(d, r), c)
  {
    assert [d] + (r[0] + [c]) == ([d] + r[0]) + [c];
    var a, b := Prepend(d, Append(r, c)), Append(Prepend(d, r), c);
    assert |a| == |b|;
    forall k | 0 <= k < |a| ensures a[k] == b[k] {
    }
  }

  lemma {:induction false} ChunksSnoc(p: Line, c: CChar, width: nat)
    requires 0 < width && c != '\n'
    ensures Chunks(p + [c], width) == Advance(Chunks(p, width), c, width)
    decreases |p|
  {
    if |p| > width {
      assert (p + [c])[..width] == p[..width];
      assert (p + [c])[width..] == p[width..] + [c];
      ChunksSnoc(p[width..], c, width);
    } else if |p| == width {
      assert (p + [c])[..width] == p;
      assert (p + [c])[width..] == [c];
    }
  }

  lemma {:induction false} AllChunksConcat(a: seq<Line>, b: seq<Line>, width: nat)
    requires 0 < width
    ensures AllChunks(a + b, width) == AllChunks(a, width) + AllChunks(b, width)
  {
    if a == [] {
      assert a + b == b;
    } else {
      assert (a + b)[1..] == a[1..] + b;
      AllChunksConcat(a[1..], b, width);
    }
  }

  lemma AllChunksLast(p: Line, width: nat)
    requires 0 < width
    ensures AllChunks([p], width) == Chunks(p, width)
  {
    assert [p][1..] == [];
    assert AllChunks([], width) == [];
  }

  lemma AdvanceAfter(a: seq<Line>, b: seq<Line>, c: CChar, width: nat)
    requires b != []
    ensures Advance(a + b, c, width) == a + Advance(b, c, width)
  {
    assert (a + b)[|a + b| - 1] == b[|b| - 1];
  }

  /**
   The lines of a text grow exactly as a lazily wrapping terminal grows them: a character after a
   full line opens the next line, and a newline after a full line breaks only once.
   */
  lemma LayoutSnoc(text: seq<CChar>, c: CChar, width: nat)
    requires 0 < width
    ensures Layout(text + [c], width) == Typed(Layout(text, width), c, width)
  {
    assert (text + [c])[..|text|] == text;
    if c != '\0' {
      var d := if c as int >= 128 then '?' else c;
      var s := Sanitized(text);
      assert Sanitized(text + [c]) == s + [d];
      ParagraphsSnoc(s, d);
      var p := Paragraphs(s);
      var n := |p| - 1;
      var init, last := p[..n], p[n];
      assert p == init + [last];
      AllChunksConcat(init, [last], width);
      AllChunksLast(last, width);
      if d == '\n' {
        AllChunksConcat(p, [[]], width);
        AllChunksLast([], width);
      } else {
        assert p[n := last + [d]] == init + [last + [d]];
        AllChunksConcat(init, [last + [d]], width);
        AllChunksLast(last + [d], width);
        ChunksSnoc(last, d, width);
        AdvanceAfter(AllChunks(init, width), Chunks(last, width), d, width);
      }
    }
  }

  lemma {:induction false} ChunksFit(p: Line, width: nat)
    requires 0 < width
    ensures forall k :: 0 <= k < |Chunks(p, width)| ==> |Chunks(p, width)[k]| <= width
    decreases |p|
  {
    if |p| > width {
      ChunksFit(p[width..], width);
    }
  }

  lemma {:induction false} AllChunksFit(ps: seq<Line>, width: nat)
    requires 0 < width
    ensures forall k :: 0 <= k < |AllChunks(ps, width)| ==> |AllChunks(ps, width)[k]| <= width
  {
    if ps != [] {
      ChunksFit(ps[0], width);
      AllChunksFit(ps[1..], width);
    }
  }

  /** No line is wider than the screen. */
  lemma LayoutFits(text: seq<CChar>, width: nat)
    requires 0 < width
    ensures forall k :: 0 <= k < |Layout(text, width)| ==> |Layout(text, width)[k]| <= width
  {
    AllChunksFit(Paragraphs(Sanitized(text)), width);
  }
}
