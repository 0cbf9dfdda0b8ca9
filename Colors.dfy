/**
 * `generateColors`: the fixed table of sixteen cell colours, and the grey clear colour.
 * Channels are integer hundredths of the table's decimal literals (0.18f is 18), which keeps
 * every value exact.
 */
module Colors {

  /** A `Vec4` colour, each channel in hundredths. */
  datatype Rgba = Rgba(r: int, g: int, b: int, a: int)

  /** `MIN_MAX_VIEWPORTS`: the least viewport limit of a device with multiViewport. */
  const MinMaxViewports: nat := 16

  /** The colour table of `generateColors`, in order. */
  const Palette: seq<Rgba> := [
    Rgba(18, 42, 17, 100),
    Rgba(29, 62, 28, 100),
    Rgba(59, 84, 44, 100),
    Rgba(96, 95, 72, 100),
    Rgba(94, 55, 39, 100),
    Rgba(82, 19, 12, 100),
    Rgba(46, 15, 26, 100),
    Rgba(24, 14, 24, 100),
    Rgba(49, 31, 26, 100),
    Rgba(78, 52, 33, 100),
    Rgba(94, 82, 31, 100),
    Rgba(98, 65, 30, 100),
    Rgba(22, 65, 53, 100),
    Rgba(67, 81, 91, 100),
    Rgba(43, 44, 75, 100),
    Rgba(26, 24, 48, 100)
  ]

  /** `clearColor` of the test: the grey left wherever no cell is drawn. */
  const ClearColor: Rgba := Rgba(50, 50, 50, 100)

  /** The per-channel tolerance of the image compare, 0.02, in hundredths. */
  const CompareThreshold: nat := 2

  function Abs(v: int): nat
  {
    if v < 0 then -v else v
  }

  /**
   * Two colours the image compare tells apart: some channel differs by more than the
   * threshold, so a pixel of one where the other is expected fails the compare.
   */
  predicate Distinguishable(c: Rgba, d: Rgba)
  {
    Abs(c.r - d.r) > CompareThreshold || Abs(c.g - d.g) > CompareThreshold ||
    Abs(c.b - d.b) > CompareThreshold || Abs(c.a - d.a) > CompareThreshold
  }

  /**
   * `generateColors(numColors)`: the first numColors table entries, in order. The source
   * asserts numColors <= 16; every two colours handed out are told apart by the compare,
   * and so is each of them from the clear colour.
   */
  function GenerateColors(numColors: nat): (colors: seq<Rgba>)
    requires numColors <= |Palette|
    ensures |colors| == numColors
    ensures forall i :: 0 <= i < numColors ==> colors[i] == Palette[i]
    ensures forall i, j :: 0 <= i < j < numColors ==> Distinguishable(colors[i], colors[j])
    ensures forall i :: 0 <= i < numColors ==> Distinguishable(colors[i], ClearColor)
  {
    PaletteDistinguishable();
    Palette[..numColors]
  }

  /** All sixteen table colours are pairwise told apart by the compare, and apart from grey. */
  lemma PaletteDistinguishable()
    ensures |Palette| == MinMaxViewports
    ensures forall i, j :: 0 <= i < j < |Palette| ==> Distinguishable(Palette[i], Palette[j])
    ensures forall i :: 0 <= i < |Palette| ==> Distinguishable(Palette[i], ClearColor)
  {
  }
}
