/** Configuration constants of the ASCII player and the pixel type shared
    by every stage of the conversion pipeline. */
module Config {

  /** Number of frames the player loads and cycles through. */
  const N_FRAMES: nat := 90

  /** Largest value a colour channel, and so an intensity, can take. */
  const MAX_INTENSITY: nat := 255

  /** Horizontal repetition of each glyph, compensating for terminal cells
      being about three times taller than wide. */
  const STRETCH: nat := 3

  /** Glyphs ordered from the one covering least background to the one
      covering most: 65 glyphs, written as five pieces of 13 so that the
      verifier can index it. The escaped quote and backslash are one glyph
      each. */
  const INTENSITY_SCALE: string :=
    "`^\",:;Il!i~+_" + "-?][}{1)(|\\/t" + "fjrxnuvczXYUJ" + "CLQ0OZmwqpdbk" + "hao*#MW&8%B@$"

  /** One colour channel of an RGB image. */
  type Channel = c: int | 0 <= c <= 255

  /** One pixel as delivered by the image's pixel accessor: an RGB triple. */
  datatype Rgb = Rgb(r: Channel, g: Channel, b: Channel)

  /** An intensity value in the range the glyph mapper accepts. */
  predicate IsIntensity(v: int) {
    0 <= v <= MAX_INTENSITY
  }

  /** Two matrices have the same number of rows and the same length row by row. */
  predicate SameShape<A, B>(a: seq<seq<A>>, b: seq<seq<B>>) {
    |a| == |b| && forall i :: 0 <= i < |a| ==> |a[i]| == |b[i]|
  }

  /** Every row of `m` has exactly `width` entries. */
  predicate Rectangular<A>(m: seq<seq<A>>, width: nat) {
    forall i :: 0 <= i < |m| ==> |m[i]| == width
  }
}
