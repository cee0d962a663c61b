/** Frame assembly: a character matrix becomes one printable block of text,
    each glyph repeated STRETCH times and each row ended by a line break.
    GetAsciiFrame chains the whole conversion pipeline for one image. */
module Frames {
  import opened Config
  import opened Luminance
  import opened Glyphs

  /** One row of the frame without its line break: every glyph repeated
      STRETCH times, in order. */
  function StretchRow(row: seq<char>): (r: string)
    ensures |r| == STRETCH * |row|
    ensures forall k :: 0 <= k < |r| ==> r[k] == row[k / STRETCH]
  {
    if row == [] then []
    else
      var rest := StretchRow(row[1..]);
      var r := seq(STRETCH, _ => row[0]) + rest;
      assert forall k :: STRETCH <= k < |r| ==> r[k] == rest[k - STRETCH] == row[1..][(k - STRETCH) / STRETCH];
      r
  }

  /** One printed line: the stretched row and its line break. */
  function Line(row: seq<char>): string
  {
    StretchRow(row) + "\n"
  }

  /** Character k of a printed line: a glyph of the row, or the final line
      break. */
  lemma LineAt(row: seq<char>, k: nat)
    requires k <= STRETCH * |row|
    ensures |Line(row)| == STRETCH * |row| + 1
    ensures Line(row)[k] == if k < STRETCH * |row| then row[k / STRETCH] else '\n'
  {
  }

  /** The text of a frame: the rows of `m` in order, each stretched and
      followed by a line break. Rows are appended one after another, so the
      last row is the one added last. A frame has at least one character per
      row, and a frame with rows ends with a line break. */
  function Frame(m: seq<seq<char>>): (r: string)
    ensures |r| >= |m|
    ensures m != [] ==> |r| > 0 && r[|r| - 1] == '\n'
  {
    if m == [] then ""
    else Frame(m[..|m| - 1]) + Line(m[|m| - 1])
  }

  /** Position at which line `i` starts in a frame whose lines are all
      `len` characters long (line breaks included). */
  function LineStart(len: nat, i: nat): nat
  {
    if i == 0 then 0 else LineStart(len, i - 1) + len
  }

  lemma {:induction false} LineStartProduct(len: nat, i: nat)
    ensures LineStart(len, i) == i * len
  {
    if i > 0 {
      LineStartProduct(len, i - 1);
    }
  }

  /** Position, in a frame whose rows have `width` glyphs, of column `k` of
      line `i` (column STRETCH * width is the line break). */
  function Offset(width: nat, i: nat, k: nat): nat
  {
    LineStart(STRETCH * width + 1, i) + k
  }

  /** Column k of line i sits at i * (STRETCH * width + 1) + k. */
  lemma OffsetValue(width: nat, i: nat, k: nat)
    ensures Offset(width, i, k) == i * (STRETCH * width + 1) + k
  {
    LineStartProduct(STRETCH * width + 1, i);
  }

  /** Number of occurrences of `c` in `s`. */
  function Count(s: string, c: char): nat
  {
    if s == [] then 0 else Count(s[..|s| - 1], c) + (if s[|s| - 1] == c then 1 else 0)
  }

  lemma {:induction false} CountAppend(a: string, b: string, c: char)
    ensures Count(a + b, c) == Count(a, c) + Count(b, c)
    decreases |b|
  {
    if b != [] {
      assert (a + b)[..|a + b| - 1] == a + b[..|b| - 1];
      CountAppend(a, b[..|b| - 1], c);
    } else {
      assert a + b == a;
    }
  }

  lemma {:induction false} CountAbsent(s: string, c: char)
    requires forall k :: 0 <= k < |s| ==> s[k] != c
    ensures Count(s, c) == 0
    decreases |s|
  {
    if s != [] {
      CountAbsent(s[..|s| - 1], c);
    }
  }

  /** A frame whose lines all have length `len` holds LineStart(len, |m|)
      characters, that is, where line |m| would start. */
  lemma {:induction false} FrameLength(m: seq<seq<char>>, len: nat)
    requires forall i :: 0 <= i < |m| ==> |Line(m[i])| == len
    ensures |Frame(m)| == LineStart(len, |m|)
    decreases |m|
  {
    if m != [] {
      FrameLength(m[..|m| - 1], len);
    }
  }

  /** Line `i` of a frame whose lines all have length `len` starts at
      LineStart(len, i) and holds row i stretched, then a line break. */
  lemma {:induction false} FrameAt(m: seq<seq<char>>, len: nat, i: nat, k: nat)
    requires forall j :: 0 <= j < |m| ==> |Line(m[j])| == len
    requires i < |m| && k < len
    ensures LineStart(len, i) + k < |Frame(m)|
    ensures Frame(m)[LineStart(len, i) + k] == Line(m[i])[k]
    decreases |m|
  {
    var n := |m|;
    var p := m[..n - 1];
    FrameLength(m, len);
    FrameLength(p, len);
    assert Frame(m) == Frame(p) + Line(m[n - 1]);
    if i < n - 1 {
      FrameAt(p, len, i, k);
      assert p[i] == m[i];
    }
  }

  /** Character k of line i of a frame built from rows of `width` glyphs:
      glyph k / STRETCH of row i, or the line break at column STRETCH * width. */
  lemma FrameCharAt(m: seq<seq<char>>, width: nat, i: nat, k: nat)
    requires Rectangular(m, width)
    requires i < |m| && k <= STRETCH * width
    ensures Offset(width, i, k) < |Frame(m)|
    ensures Frame(m)[Offset(width, i, k)] == if k < STRETCH * width then m[i][k / STRETCH] else '\n'
  {
    FrameAt(m, STRETCH * width + 1, i, k);
    LineAt(m[i], k);
  }

  /** Layout of a frame built from rows of equal width: |m| lines of
      STRETCH * width glyphs, each followed by a line break, where glyph k of
      line i is the (k / STRETCH)-th glyph of row i. */
  lemma FrameLayout(m: seq<seq<char>>, width: nat)
    requires Rectangular(m, width)
    ensures |Frame(m)| == |m| * (STRETCH * width + 1)
    ensures forall i, k :: 0 <= i < |m| && 0 <= k < STRETCH * width ==>
              Offset(width, i, k) < |Frame(m)| && Frame(m)[Offset(width, i, k)] == m[i][k / STRETCH]
    ensures forall i :: 0 <= i < |m| ==>
              Offset(width, i, STRETCH * width) < |Frame(m)| && Frame(m)[Offset(width, i, STRETCH * width)] == '\n'
  {
    var len := STRETCH * width + 1;
    FrameLength(m, len);
    LineStartProduct(len, |m|);
    forall i, k | 0 <= i < |m| && 0 <= k < STRETCH * width
      ensures Offset(width, i, k) < |Frame(m)| && Frame(m)[Offset(width, i, k)] == m[i][k / STRETCH]
    {
      FrameCharAt(m, width, i, k);
    }
    forall i | 0 <= i < |m|
      ensures Offset(width, i, STRETCH * width) < |Frame(m)| && Frame(m)[Offset(width, i, STRETCH * width)] == '\n'
    {
      FrameCharAt(m, width, i, STRETCH * width);
    }
  }

  /** A frame holds exactly one line break per row when no glyph is a line
      break. */
  lemma {:induction false} FrameLineBreaks(m: seq<seq<char>>)
    requires forall i, j :: 0 <= i < |m| && 0 <= j < |m[i]| ==> m[i][j] != '\n'
    ensures Count(Frame(m), '\n') == |m|
    decreases |m|
  {
    if m != [] {
      var p, last := m[..|m| - 1], m[|m| - 1];
      FrameLineBreaks(p);
      assert Frame(m) == Frame(p) + StretchRow(last) + "\n";
      CountAbsent(StretchRow(last), '\n');
      CountAppend(Frame(p), StretchRow(last), '\n');
      CountAppend(Frame(p) + StretchRow(last), "\n", '\n');
      assert Count("\n", '\n') == 1 by {
        assert "\n"[..0] == [];
      }
    }
  }

  /** Builds the frame text row by row, appending each stretched row and a
      line break. */
  method AssembleFrame(charMatrix: seq<seq<char>>) returns (frame: string)
    ensures frame == Frame(charMatrix)
  {
    frame := "";
    var i := 0;
    while i < |charMatrix|
      invariant 0 <= i <= |charMatrix|
      invariant frame == Frame(charMatrix[..i])
    {
      var row := StretchRow(charMatrix[i]);
      frame := frame + row + "\n";
      assert charMatrix[..i + 1][..i] == charMatrix[..i];
      i := i + 1;
    }
    assert charMatrix[..i] == charMatrix;
  }

  /** The glyph matrix of an image of `height` x `width` pixels read through
      `pixels`: row y, column x holds the glyph of pixel (x, y). */
  function GlyphMatrix(pixels: (nat, nat) -> Rgb, height: nat, width: nat): seq<seq<char>>
  {
    seq(height, y requires 0 <= y =>
      seq(width, x requires 0 <= x => ConvertToChar(Intensity(pixels(x, y)))))
  }

  /** The frame text of an image: every pixel reduced to its intensity,
      mapped to its glyph, and the rows assembled. It holds `height` lines of
      STRETCH * width glyphs and a line break each. */
  function AsciiFrame(pixels: (nat, nat) -> Rgb, height: nat, width: nat): (r: string)
    ensures |r| == height * (STRETCH * width + 1)
  {
    var m := GlyphMatrix(pixels, height, width);
    FrameLayout(m, width);
    Frame(m)
  }

  /** Layout of the frame of an image, whose length AsciiFrame states: glyph
      k of line y shows the intensity of pixel (k / STRETCH, y), every line
      ends with a line break, and there are exactly `height` line breaks. */
  lemma AsciiFrameLayout(pixels: (nat, nat) -> Rgb, height: nat, width: nat)
    ensures forall y, k :: 0 <= y < height && 0 <= k < STRETCH * width ==>
              Offset(width, y, k) < |AsciiFrame(pixels, height, width)| &&
              AsciiFrame(pixels, height, width)[Offset(width, y, k)] == ConvertToChar(Intensity(pixels(k / STRETCH, y)))
    ensures forall y :: 0 <= y < height ==>
              Offset(width, y, STRETCH * width) < |AsciiFrame(pixels, height, width)| &&
              AsciiFrame(pixels, height, width)[Offset(width, y, STRETCH * width)] == '\n'
    ensures Count(AsciiFrame(pixels, height, width), '\n') == height
  {
    var m := GlyphMatrix(pixels, height, width);
    FrameLayout(m, width);
    forall i, j | 0 <= i < |m| && 0 <= j < |m[i]|
      ensures m[i][j] != '\n'
    {
      assert m[i][j] == ConvertToChar(Intensity(pixels(j, i)));
    }
    FrameLineBreaks(m);
  }

  /** The whole conversion for one image, run stage by stage as the player
      does when it loads a frame. */
  method GetAsciiFrame(pixels: (nat, nat) -> Rgb, height: nat, width: nat) returns (frame: string)
    ensures frame == AsciiFrame(pixels, height, width)
  {
    var pixelMatrix := GetPixelMatrix(pixels, height, width);
    var intensityMatrix := GetIntensityMatrix(pixelMatrix);
    var charMatrix := GetCharMatrix(intensityMatrix);
    frame := AssembleFrame(charMatrix);
    var expected := GlyphMatrix(pixels, height, width);
    forall y | 0 <= y < height
      ensures charMatrix[y] == expected[y]
    {
      forall x | 0 <= x < width
        ensures charMatrix[y][x] == expected[y][x]
      {
        assert intensityMatrix[y][x] == Intensity(pixelMatrix[y][x]);
      }
    }
    assert charMatrix == expected;
  }
}
