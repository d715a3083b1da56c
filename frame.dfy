/** Pixel coordinates and the row-major layout shared by every per-pixel buffer of
    main.go: the raw frame, the gray cache and the RGBA raster all place pixel
    (x, y) of a w-by-h frame at index y*w + x. */
module Frame {

  /** One sample of the raw frame buffer (Go's `byte`). */
  type byte = x: int | 0 <= x < 256

  /** Go's `Point{x, y}`: a pixel coordinate and the key type of the motion mask. */
  datatype Point = Point(x: int, y: int)

  /** The coordinates the nested `for x` / `for y` loops of main.go visit. */
  predicate InFrame(pt: Point, w: nat, h: nat)
  {
    0 <= pt.x < w && 0 <= pt.y < h
  }

  /** Every coordinate of a w-by-h frame, as a finite set. */
  function FramePoints(w: nat, h: nat): (s: set<Point>)
    ensures forall pt :: pt in s <==> InFrame(pt, w, h)
  {
    set x, y | 0 <= x < w && 0 <= y < h :: Point(x, y)
  }

  lemma MulNonNegative(a: int, b: int)
    requires a >= 0 && b >= 0
    ensures a * b >= 0
  {
  }

  lemma MulSubDistributes(a: int, b: int, w: int)
    ensures a * w - b * w == (a - b) * w
  {
  }

  lemma IndexBelowArea(w: nat, h: nat, x: int, y: int)
    requires 0 <= x < w && 0 <= y < h
    ensures y * w + x < w * h
  {
    MulSubDistributes(h, y, w);
    MulNonNegative(h - y - 1, w);
    MulSubDistributes(h - y, 1, w);
  }

  lemma DivModOfIndex(w: nat, x: int, y: int)
    requires 0 <= x < w && 0 <= y
    ensures (y * w + x) / w == y && (y * w + x) % w == x
  {
    var p := y * w + x;
    var q, r := p / w, p % w;
    MulSubDistributes(q, y, w);
    assert (q - y) * w == x - r;
    if q > y {
      MulNonNegative(q - y - 1, w);
      MulSubDistributes(q - y, 1, w);
    } else if q < y {
      MulNonNegative(y - q - 1, w);
      MulSubDistributes(y - q, 1, w);
    }
  }

  /** The slot `y*w + x` that pixel (x, y) occupies in a buffer of one entry per
      pixel. It stays inside the buffer, and the coordinate can be read back from
      it, so two distinct pixels never share a slot. */
  function PixelIndex(w: nat, h: nat, x: int, y: int): (p: nat)
    requires 0 <= x < w && 0 <= y < h
    ensures p < w * h
    ensures p / w == y && p % w == x
  {
    IndexBelowArea(w, h, x, y);
    DivModOfIndex(w, x, y);
    y * w + x
  }

  /** The pixel whose slot is p. */
  function PixelAt(w: nat, p: nat): Point
    requires w > 0
  {
    Point(p % w, p / w)
  }

  /** Every slot of a w-by-h buffer belongs to exactly one pixel of the frame, so the
      nested loops over x and y write every slot. */
  lemma {:induction false} PixelAtInverse(w: nat, h: nat, p: nat)
    requires p < w * h
    ensures w > 0
    ensures InFrame(PixelAt(w, p), w, h)
    ensures PixelIndex(w, h, p % w, p / w) == p
  {
    var q, r := p / w, p % w;
    assert p == q * w + r;
    if q >= h {
      MulNonNegative(q - h, w);
      MulSubDistributes(q, h, w);
    }
  }
}
