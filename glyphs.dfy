/** Glyph mapping: an intensity in [0, MAX_INTENSITY] is scaled to a position
    in the density gradient INTENSITY_SCALE, and the glyph there is chosen. */
module Glyphs {
  import opened Config

  /** Position in the gradient for intensity `b`: the truncation of
      b / MAX_INTENSITY * (|INTENSITY_SCALE| - 1). On [0, 255] the float
      product truncates to the same value as the integer quotient below. */
  function GlyphIndex(b: int): (idx: nat)
    requires IsIntensity(b)
    ensures idx < |INTENSITY_SCALE|
    ensures idx * MAX_INTENSITY <= b * (|INTENSITY_SCALE| - 1) < (idx + 1) * MAX_INTENSITY
  {
    b * (|INTENSITY_SCALE| - 1) / MAX_INTENSITY
  }

  /** A higher intensity never selects an earlier, sparser glyph. */
  lemma GlyphIndexMonotone(b1: int, b2: int)
    requires IsIntensity(b1) && IsIntensity(b2) && b1 <= b2
    ensures GlyphIndex(b1) <= GlyphIndex(b2)
  {
  }

  /** Only the darkest four intensities select the first glyph, and only
      full intensity selects the last one. */
  lemma GlyphIndexEnds(b: int)
    requires IsIntensity(b)
    ensures GlyphIndex(b) == 0 <==> b <= 3
    ensures GlyphIndex(b) == |INTENSITY_SCALE| - 1 <==> b == MAX_INTENSITY
  {
  }

  /** The least intensity that selects glyph `k`: every glyph of the gradient
      is reachable, and intensities below this one select earlier glyphs. */
  function LeastIntensityFor(k: nat): (b: nat)
    requires k < |INTENSITY_SCALE|
    ensures IsIntensity(b) && GlyphIndex(b) == k
    ensures forall c :: 0 <= c < b ==> GlyphIndex(c) < k
  {
    var b := (k * MAX_INTENSITY + 63) / 64;
    assert k * 255 <= b * 64 < k * 255 + 64;
    assert forall c :: 0 <= c < b ==> c * 64 < k * 255;
    b
  }

  /** The glyph displayed for intensity `b`: the gradient glyph at the
      position b * (|INTENSITY_SCALE| - 1) / MAX_INTENSITY truncates to. It is
      never a line break, so a frame's line breaks are only those the
      assembler adds. Black is the backtick, white is the dollar sign. */
  function ConvertToChar(b: int): (c: char)
    requires IsIntensity(b)
    ensures exists k :: 0 <= k < |INTENSITY_SCALE| &&
              k * MAX_INTENSITY <= b * (|INTENSITY_SCALE| - 1) < (k + 1) * MAX_INTENSITY &&
              c == INTENSITY_SCALE[k]
    ensures c != '\n'
    ensures b <= 3 ==> c == '`'
    ensures b == MAX_INTENSITY ==> c == '$'
  {
    INTENSITY_SCALE[GlyphIndex(b)]
  }

  /** Maps every intensity of the matrix to its glyph, keeping the shape. */
  method GetCharMatrix(intensityMatrix: seq<seq<int>>) returns (cm: seq<seq<char>>)
    requires forall i, j :: 0 <= i < |intensityMatrix| && 0 <= j < |intensityMatrix[i]| ==>
               IsIntensity(intensityMatrix[i][j])
    ensures SameShape(cm, intensityMatrix)
    ensures forall i, j :: 0 <= i < |cm| && 0 <= j < |cm[i]| ==>
              cm[i][j] == ConvertToChar(intensityMatrix[i][j])
  {
    cm := [];
    var i := 0;
    while i < |intensityMatrix|
      invariant 0 <= i <= |intensityMatrix|
      invariant SameShape(cm, intensityMatrix[..i])
      invariant forall k, j :: 0 <= k < i && 0 <= j < |cm[k]| ==>
                  cm[k][j] == ConvertToChar(intensityMatrix[k][j])
    {
      var row := intensityMatrix[i];
      var newRow := seq(|row|, j requires 0 <= j < |row| && IsIntensity(row[j]) => ConvertToChar(row[j]));
      assert forall j :: 0 <= j < |row| ==> newRow[j] == ConvertToChar(intensityMatrix[i][j]);
      cm := cm + [newRow];
      i := i + 1;
    }
  }
}
