/** The luminance converter of main.go (`grayscale`, lines 212-214, and the
    `color.RGBA{r, g, b, 0}.RGBA()` call that feeds it at line 206). */
module Luminance {
  import opened Frame

  /** Go's `uint32`, the channel type `color.Color.RGBA()` returns. */
  type uint32 = x: int | 0 <= x < 0x1_0000_0000

  function Min3(a: int, b: int, c: int): int
  {
    if a <= b && a <= c then a else if b <= c then b else c
  }

  function Max3(a: int, b: int, c: int): int
  {
    if a >= b && a >= c then a else if b >= c then b else c
  }

  /** `color.RGBA.RGBA()` widens an 8-bit channel to 16 bits with `c |= c << 8`;
      the two copies of the byte do not overlap, so the or is an addition. The
      `/257` that `grayscale` applies gives the channel back exactly. */
  function Widen(c: byte): (v: uint32)
    ensures v < 0x1_0000
    ensures v / 257 == c && v % 257 == 0
  {
    c * 256 + c
  }

  /** `grayscale(r, g, b, _)`: the BT.601 weights 0.299, 0.587 and 0.114 written
      per mille, applied to the 8-bit channels `/257` recovers, truncated. The
      fourth argument is ignored. Because the per-mille weights sum to 1000, the
      result lies between the darkest and the brightest of the three channels. */
  function Grayscale(r: uint32, g: uint32, b: uint32, a: uint32): (l: int)
    ensures Min3(r / 257, g / 257, b / 257) <= l <= Max3(r / 257, g / 257, b / 257)
  {
    (299 * (r / 257) + 587 * (g / 257) + 114 * (b / 257)) / 1000
  }

  /** The fourth channel has no influence on the luminance. */
  lemma GrayscaleIgnoresFourthChannel(r: uint32, g: uint32, b: uint32, a: uint32, a': uint32)
    ensures Grayscale(r, g, b, a) == Grayscale(r, g, b, a')
  {
  }

  /** The luminance main.go stores for one 8-bit RGB sample:
      `grayscale(color.RGBA{r, g, b, 0}.RGBA())`. */
  function PixelLuma(r: byte, g: byte, b: byte): (l: int)
    ensures Min3(r, g, b) <= l <= Max3(r, g, b)
  {
    Grayscale(Widen(r), Widen(g), Widen(b), Widen(0))
  }

  /** Widening and `/257` cancel, so the stored luminance is the per-mille
      weighted sum of the three bytes themselves, truncated. */
  lemma PixelLumaFormula(r: byte, g: byte, b: byte)
    ensures PixelLuma(r, g, b) == (299 * r + 587 * g + 114 * b) / 1000
  {
    assert Widen(r) / 257 == r && Widen(g) / 257 == g && Widen(b) / 257 == b;
  }

  /** A luminance is always a valid 8-bit intensity. */
  lemma PixelLumaInRange(r: byte, g: byte, b: byte)
    ensures 0 <= PixelLuma(r, g, b) <= 255
  {
    assert Min3(r, g, b) >= 0 && Max3(r, g, b) <= 255;
  }

  /** Against an independent reference: the luminance is the whole part of the
      exact weighted sum 0.299 R + 0.587 G + 0.114 B. */
  lemma PixelLumaIsFloorOfWeightedSum(r: byte, g: byte, b: byte)
    ensures var l := PixelLuma(r, g, b) as real;
      var exact := 0.299 * r as real + 0.587 * g as real + 0.114 * b as real;
      l <= exact < l + 1.0
  {
    var s := 299 * r + 587 * g + 114 * b;
    var l := PixelLuma(r, g, b);
    PixelLumaFormula(r, g, b);
    assert 1000 * l <= s < 1000 * l + 1000;
    assert 0.299 * r as real + 0.587 * g as real + 0.114 * b as real == s as real / 1000.0;
  }

  /** A gray sample keeps its intensity, since the per-mille weights sum to 1000; in
      particular black stays 0 and white stays 255. */
  lemma PixelLumaOfGray(c: byte)
    ensures PixelLuma(c, c, c) == c
  {
    PixelLumaFormula(c, c, c);
    assert 299 * c + 587 * c + 114 * c == 1000 * c;
  }

  /** (10, 20, 30) weighs to 18.15, which truncates to 18. */
  lemma PixelLumaExample()
    ensures PixelLuma(10, 20, 30) == 18
  {
    PixelLumaFormula(10, 20, 30);
  }

  /** Raising one channel never darkens the pixel. */
  lemma PixelLumaMonotone(r: byte, g: byte, b: byte, r': byte, g': byte, b': byte)
    requires r <= r' && g <= g' && b <= b'
    ensures PixelLuma(r, g, b) <= PixelLuma(r', g', b')
  {
    PixelLumaFormula(r, g, b);
    PixelLumaFormula(r', g', b');
  }
}
