/** The frame cache of main.go: `graycache` and `newGrayCacheFromData`
    (lines 196-210), which reduce a row-major buffer of 4 bytes per pixel to one
    luminance per pixel. */
module GrayCache {
  import opened Frame
  import opened Luminance

  /** The luminance of pixel slot p of a raw buffer: bytes 4p, 4p+1 and 4p+2 are
      its red, green and blue samples; byte 4p+3 is not read. */
  function LumaAt(data: seq<byte>, p: nat): int
    requires 4 * p + 2 < |data|
  {
    PixelLuma(data[4 * p], data[4 * p + 1], data[4 * p + 2])
  }

  /** The cache `newGrayCacheFromData(data, w, h)` returns, as a value. */
  function GrayCacheOf(data: seq<byte>, w: nat, h: nat): (gc: seq<int>)
    requires |data| >= 4 * (w * h)
    ensures |gc| == w * h
  {
    seq(w * h, p requires 0 <= p < w * h => LumaAt(data, p))
  }

  /** `newGrayCacheFromData`: allocates a cache of w*h entries and, column by
      column, writes the luminance of pixel (x, y) into slot y*w + x. The model asks
      for the full buffer of 4*w*h bytes, one more than the loops read, since the
      fourth byte of the last pixel is never read. */
  method NewGrayCacheFromData(data: seq<byte>, w: nat, h: nat) returns (gc: seq<int>)
    requires |data| >= 4 * (w * h)
    ensures |gc| == w * h
    ensures forall x, y :: 0 <= x < w && 0 <= y < h ==>
      gc[PixelIndex(w, h, x, y)] == LumaAt(data, PixelIndex(w, h, x, y))
    ensures gc == GrayCacheOf(data, w, h)
  {
    var cache := new int[w * h];
    for x := 0 to w
      invariant forall i, j :: 0 <= i < x && 0 <= j < h ==>
        cache[PixelIndex(w, h, i, j)] == LumaAt(data, PixelIndex(w, h, i, j))
    {
      for y := 0 to h
        invariant forall i, j :: 0 <= i < x && 0 <= j < h ==>
          cache[PixelIndex(w, h, i, j)] == LumaAt(data, PixelIndex(w, h, i, j))
        invariant forall j :: 0 <= j < y ==>
          cache[PixelIndex(w, h, x, j)] == LumaAt(data, PixelIndex(w, h, x, j))
      {
        var p := PixelIndex(w, h, x, y);
        cache[p] := LumaAt(data, p);
      }
    }
    forall p | 0 <= p < w * h
      ensures cache[p] == LumaAt(data, p)
    {
      PixelAtInverse(w, h, p);
    }
    gc := cache[..];
  }

  /** Every cache entry is a valid 8-bit intensity. */
  lemma GrayCacheInRange(data: seq<byte>, w: nat, h: nat)
    requires |data| >= 4 * (w * h)
    ensures forall p :: 0 <= p < w * h ==> 0 <= GrayCacheOf(data, w, h)[p] <= 255
  {
    forall p | 0 <= p < w * h
      ensures 0 <= GrayCacheOf(data, w, h)[p] <= 255
    {
      PixelLumaInRange(data[4 * p], data[4 * p + 1], data[4 * p + 2]);
    }
  }

  /** The fourth byte of a pixel never affects the cache: two buffers that agree on
      the first three bytes of every pixel give the same cache. */
  lemma GrayCacheIgnoresFourthByte(d1: seq<byte>, d2: seq<byte>, w: nat, h: nat)
    requires |d1| >= 4 * (w * h) && |d2| >= 4 * (w * h)
    requires forall p :: 0 <= p < w * h ==>
      d1[4 * p] == d2[4 * p] && d1[4 * p + 1] == d2[4 * p + 1] && d1[4 * p + 2] == d2[4 * p + 2]
    ensures GrayCacheOf(d1, w, h) == GrayCacheOf(d2, w, h)
  {
    var c1, c2 := GrayCacheOf(d1, w, h), GrayCacheOf(d2, w, h);
    forall p | 0 <= p < w * h
      ensures c1[p] == c2[p]
    {
      assert c1[p] == LumaAt(d1, p) && c2[p] == LumaAt(d2, p);
    }
  }

  /** Overwriting the fourth byte of one pixel leaves the cache as it was. */
  lemma GrayCacheIgnoresAlphaWrite(data: seq<byte>, w: nat, h: nat, q: nat, v: byte)
    requires |data| >= 4 * (w * h) && q < w * h
    ensures GrayCacheOf(data[4 * q + 3 := v], w, h) == GrayCacheOf(data, w, h)
  {
    var data' := data[4 * q + 3 := v];
    forall p | 0 <= p < w * h
      ensures data'[4 * p] == data[4 * p] && data'[4 * p + 1] == data[4 * p + 1]
      ensures data'[4 * p + 2] == data[4 * p + 2]
    {
    }
    GrayCacheIgnoresFourthByte(data', data, w, h);
  }
}
