/** Image sampling and luminance reduction: the pixel matrix read through the
    image's pixel accessor, and its reduction to an intensity matrix. */
module Luminance {
  import opened Config

  /** Brightness of one pixel: the truncated arithmetic mean of its three
      channels. It never leaves the range spanned by the channels. */
  function Intensity(p: Rgb): (v: nat)
    ensures 3 * v <= p.r + p.g + p.b < 3 * v + 3
    ensures IsIntensity(v)
    ensures p.r <= v || p.g <= v || p.b <= v
    ensures v <= p.r || v <= p.g || v <= p.b
  {
    (p.r + p.g + p.b) / 3
  }

  /** A grey pixel keeps its channel value as its intensity, and the mean is
      monotone in each channel. */
  lemma IntensityGreyAndMonotone(p: Rgb, q: Rgb)
    requires p.r <= q.r && p.g <= q.g && p.b <= q.b
    ensures Intensity(p) <= Intensity(q)
    ensures p.r == p.g == p.b ==> Intensity(p) == p.r
  {
  }

  /** Three sample pixels: white, black and (10, 20, 30). */
  lemma IntensityExamples()
    ensures Intensity(Rgb(255, 255, 255)) == 255
    ensures Intensity(Rgb(0, 0, 0)) == 0
    ensures Intensity(Rgb(10, 20, 30)) == 20
  {
  }

  /** Reads a `height` x `width` pixel matrix, row by row, through the
      column-major accessor `pixels(x, y)`. */
  method GetPixelMatrix(pixels: (nat, nat) -> Rgb, height: nat, width: nat)
    returns (m: seq<seq<Rgb>>)
    ensures |m| == height && Rectangular(m, width)
    ensures forall y, x :: 0 <= y < height && 0 <= x < width ==> m[y][x] == pixels(x, y)
  {
    m := [];
    var y := 0;
    while y < height
      invariant 0 <= y <= height
      invariant |m| == y && Rectangular(m, width)
      invariant forall j, x :: 0 <= j < y && 0 <= x < width ==> m[j][x] == pixels(x, j)
    {
      var row := seq(width, x requires 0 <= x < width => pixels(x, y));
      m := m + [row];
      y := y + 1;
    }
  }

  /** Reduces every pixel of the matrix to its intensity, keeping the shape. */
  method GetIntensityMatrix(pixelMatrix: seq<seq<Rgb>>) returns (im: seq<seq<nat>>)
    ensures SameShape(im, pixelMatrix)
    ensures forall i, j :: 0 <= i < |im| && 0 <= j < |im[i]| ==>
              im[i][j] == Intensity(pixelMatrix[i][j]) && IsIntensity(im[i][j])
  {
    im := [];
    var i := 0;
    while i < |pixelMatrix|
      invariant 0 <= i <= |pixelMatrix|
      invariant SameShape(im, pixelMatrix[..i])
      invariant forall k, j :: 0 <= k < i && 0 <= j < |im[k]| ==>
                  im[k][j] == Intensity(pixelMatrix[k][j])
    {
      var row := pixelMatrix[i];
      var newRow: seq<nat> := [];
      var j := 0;
      while j < |row|
        invariant 0 <= j <= |row|
        invariant |newRow| == j
        invariant forall l :: 0 <= l < j ==> newRow[l] == Intensity(row[l])
      {
        newRow := newRow + [Intensity(row[j])];
        j := j + 1;
      }
      im := im + [newRow];
      i := i + 1;
    }
  }
}
