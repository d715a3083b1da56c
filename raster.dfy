/** The raster builder of main.go: `newImage` (lines 181-194), which copies the raw
    buffer into an `image.RGBA` one `Set(x, y, color.RGBA{...})` at a time. */
module Raster {
  import opened Frame

  /** Go's `color.RGBA`: four 8-bit channels, stored as given. */
  datatype Rgba = Rgba(r: byte, g: byte, b: byte, a: byte)

  /** The colour `newImage` sets for pixel slot p. The alpha channel is read from
      byte 4p+2, the blue byte, not from byte 4p+3. */
  function ColorAt(data: seq<byte>, p: nat): Rgba
    requires 4 * p + 2 < |data|
  {
    Rgba(data[4 * p], data[4 * p + 1], data[4 * p + 2], data[4 * p + 2])
  }

  /** The image `newImage(data, w, h)` returns, one colour per pixel at slot y*w + x. */
  function ImageOf(data: seq<byte>, w: nat, h: nat): (img: seq<Rgba>)
    requires |data| >= 4 * (w * h)
    ensures |img| == w * h
  {
    seq(w * h, p requires 0 <= p < w * h => ColorAt(data, p))
  }

  /** `newImage`: allocates a w-by-h image and, column by column, sets pixel (x, y)
      to the red, green and blue bytes of slot y*w + x with the blue byte again as
      alpha. The model asks for the full buffer of 4*w*h bytes, one more than the
      loops read. */
  method NewImage(data: seq<byte>, w: nat, h: nat) returns (img: seq<Rgba>)
    requires |data| >= 4 * (w * h)
    ensures |img| == w * h
    ensures forall x, y :: 0 <= x < w && 0 <= y < h ==>
      var p := PixelIndex(w, h, x, y);
      img[p].r == data[4 * p] && img[p].g == data[4 * p + 1] &&
      img[p].b == data[4 * p + 2] && img[p].a == data[4 * p + 2]
    ensures img == ImageOf(data, w, h)
  {
    var m := new Rgba[w * h](_ => Rgba(0, 0, 0, 0));
    for x := 0 to w
      invariant forall i, j :: 0 <= i < x && 0 <= j < h ==>
        m[PixelIndex(w, h, i, j)] == ColorAt(data, PixelIndex(w, h, i, j))
    {
      for y := 0 to h
        invariant forall i, j :: 0 <= i < x && 0 <= j < h ==>
          m[PixelIndex(w, h, i, j)] == ColorAt(data, PixelIndex(w, h, i, j))
        invariant forall j :: 0 <= j < y ==>
          m[PixelIndex(w, h, x, j)] == ColorAt(data, PixelIndex(w, h, x, j))
      {
        var p := PixelIndex(w, h, x, y);
        m[p] := Rgba(data[p * 4], data[p * 4 + 1], data[p * 4 + 2], data[p * 4 + 2]);
      }
    }
    forall p | 0 <= p < w * h
      ensures m[p] == ColorAt(data, p)
    {
      PixelAtInverse(w, h, p);
    }
    img := m[..];
  }

  /** The `Pix` byte layout of an `image.RGBA` whose rectangle starts at the
      origin: four bytes R, G, B, A per pixel, pixel after pixel. */
  function Pix(img: seq<Rgba>): (pix: seq<byte>)
    ensures |pix| == 4 * |img|
  {
    if img == [] then []
    else [img[0].r, img[0].g, img[0].b, img[0].a] + Pix(img[1..])
  }

  /** Pixel p of an image occupies bytes 4p .. 4p+3 of its `Pix`. */
  lemma {:induction false} PixAt(img: seq<Rgba>, p: nat)
    requires p < |img|
    ensures Pix(img)[4 * p] == img[p].r && Pix(img)[4 * p + 1] == img[p].g
    ensures Pix(img)[4 * p + 2] == img[p].b && Pix(img)[4 * p + 3] == img[p].a
  {
    if p > 0 {
      PixAt(img[1..], p - 1);
    }
  }

  /** Where every pixel of the buffer already has its blue byte as alpha, the image
      is a byte-for-byte copy of the buffer. */
  lemma ImageCopiesBufferWhenAlphaIsBlue(data: seq<byte>, w: nat, h: nat)
    requires |data| >= 4 * (w * h)
    requires forall p :: 0 <= p < w * h ==> data[4 * p + 3] == data[4 * p + 2]
    ensures Pix(ImageOf(data, w, h)) == data[..4 * (w * h)]
  {
    var img := ImageOf(data, w, h);
    var n := 4 * (w * h);
    if w * h > 0 {
      PixAt(img, 0);
    }
    forall i | 0 <= i < n
      ensures Pix(img)[i] == data[i]
    {
      var p := i / 4;
      PixAt(img, p);
    }
  }

  /** The quirk itself: wherever a pixel's fourth byte differs from its blue byte,
      the image's alpha at that pixel differs from the buffer. */
  lemma ImageAlphaIgnoresFourthByte(data: seq<byte>, w: nat, h: nat, q: nat)
    requires |data| >= 4 * (w * h) && q < w * h
    requires data[4 * q + 3] != data[4 * q + 2]
    ensures Pix(ImageOf(data, w, h))[4 * q + 3] == data[4 * q + 2]
    ensures Pix(ImageOf(data, w, h))[4 * q + 3] != data[4 * q + 3]
  {
    PixAt(ImageOf(data, w, h), q);
  }
}
