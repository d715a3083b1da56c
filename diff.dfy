/** The diff engine of main.go: `isOverThreshold` (lines 228-230) and
    `cacheDiffBitmap` (lines 216-226), which turn a background cache and a current
    cache into the motion mask `map[Point]bool`. */
module Diff {
  import opened Frame
  import opened GrayCache

  /** The threshold `cacheDiffBitmap` passes to `isOverThreshold`. */
  const Threshold: int := 30

  /** `isOverThreshold(diff, t)`: the test is strict, so a difference equal to the
      threshold does not pass and the smallest passing difference is t + 1. */
  function IsOverThreshold(diff: int, t: int): (over: bool)
    ensures over <==> diff >= t + 1
    ensures diff == t ==> !over
  {
    diff > t
  }

  /** Pixel pt is motion when it lies in the frame and its current luminance
      exceeds the background's by more than the threshold (a signed difference). */
  predicate Flagged(bg: seq<int>, cr: seq<int>, w: nat, h: nat, pt: Point)
    requires |bg| >= w * h && |cr| >= w * h
  {
    InFrame(pt, w, h) &&
    var p := PixelIndex(w, h, pt.x, pt.y);
    IsOverThreshold(cr[p] - bg[p], Threshold)
  }

  /** The motion mask as a value: exactly the flagged pixels, each mapped to true. */
  function DiffMask(bg: seq<int>, cr: seq<int>, w: nat, h: nat): (mp: map<Point, bool>)
    requires |bg| >= w * h && |cr| >= w * h
    ensures forall pt :: pt in mp <==> Flagged(bg, cr, w, h, pt)
    ensures forall pt :: pt in mp ==> mp[pt]
  {
    map pt | pt in FramePoints(w, h) && Flagged(bg, cr, w, h, pt) :: true
  }

  /** `cacheDiffBitmap(bg, cr, w, h)`: visits the frame column by column and
      records `Point{x, y}: true` for every pixel over the threshold. Go panics when
      either cache has fewer than w*h entries; here that is the precondition. */
  method CacheDiffBitmap(bg: seq<int>, cr: seq<int>, w: nat, h: nat) returns (mp: map<Point, bool>)
    requires |bg| >= w * h && |cr| >= w * h
    ensures forall pt :: pt in mp <==>
      InFrame(pt, w, h) &&
      cr[PixelIndex(w, h, pt.x, pt.y)] - bg[PixelIndex(w, h, pt.x, pt.y)] > Threshold
    ensures forall pt :: pt in mp ==> mp[pt]
    ensures mp == DiffMask(bg, cr, w, h)
  {
    mp := map[];
    for x := 0 to w
      invariant forall pt :: pt in mp <==> pt.x < x && Flagged(bg, cr, w, h, pt)
      invariant forall pt :: pt in mp ==> mp[pt]
    {
      for y := 0 to h
        invariant forall pt :: pt in mp <==>
          (pt.x < x || (pt.x == x && pt.y < y)) && Flagged(bg, cr, w, h, pt)
        invariant forall pt :: pt in mp ==> mp[pt]
      {
        var p := PixelIndex(w, h, x, y);
        if IsOverThreshold(cr[p] - bg[p], Threshold) {
          mp := mp[Point(x, y) := true];
        }
      }
    }
    var spec := DiffMask(bg, cr, w, h);
    assert mp.Keys == spec.Keys;
  }

  /** A cache diffed against itself shows no motion. */
  lemma IdenticalCachesGiveEmptyMask(c: seq<int>, w: nat, h: nat)
    requires |c| >= w * h
    ensures DiffMask(c, c, w, h) == map[]
  {
    var mp := DiffMask(c, c, w, h);
    forall pt
      ensures pt !in mp
    {
      if InFrame(pt, w, h) {
        var p := PixelIndex(w, h, pt.x, pt.y);
        assert c[p] - c[p] == 0;
      }
    }
    assert mp.Keys == {};
  }

  /** The all-zero startup background flags exactly the pixels whose current
      luminance exceeds the threshold. */
  lemma ZeroBackgroundFlagsBrightPixels(bg: seq<int>, cr: seq<int>, w: nat, h: nat, pt: Point)
    requires |bg| >= w * h && |cr| >= w * h
    requires forall p :: 0 <= p < w * h ==> bg[p] == 0
    ensures pt in DiffMask(bg, cr, w, h) <==>
      InFrame(pt, w, h) && cr[PixelIndex(w, h, pt.x, pt.y)] > Threshold
  {
    if InFrame(pt, w, h) {
      assert bg[PixelIndex(w, h, pt.x, pt.y)] == 0;
    }
  }

  /** End to end from the raw buffer: against the zero background, a pixel is motion
      exactly when the luminance of its first three bytes exceeds the threshold. */
  lemma ZeroBackgroundAgainstFrame(bg: seq<int>, data: seq<byte>, w: nat, h: nat, pt: Point)
    requires |data| >= 4 * (w * h) && |bg| >= w * h
    requires forall p :: 0 <= p < w * h ==> bg[p] == 0
    ensures pt in DiffMask(bg, GrayCacheOf(data, w, h), w, h) <==>
      InFrame(pt, w, h) && LumaAt(data, PixelIndex(w, h, pt.x, pt.y)) > Threshold
  {
    ZeroBackgroundFlagsBrightPixels(bg, GrayCacheOf(data, w, h), w, h, pt);
  }

  /** The boundary is strict: a difference of exactly the threshold is not motion,
      one more is. */
  lemma ThresholdIsStrict(bg: seq<int>, cr: seq<int>, w: nat, h: nat, pt: Point)
    requires |bg| >= w * h && |cr| >= w * h && InFrame(pt, w, h)
    ensures var p := PixelIndex(w, h, pt.x, pt.y);
      (cr[p] - bg[p] == Threshold ==> pt !in DiffMask(bg, cr, w, h)) &&
      (cr[p] - bg[p] == Threshold + 1 ==> pt in DiffMask(bg, cr, w, h))
  {
  }

  /** A pixel that got darker than the background, or stayed as bright, is never
      motion. */
  lemma DarkerNeverFlagged(bg: seq<int>, cr: seq<int>, w: nat, h: nat, pt: Point)
    requires |bg| >= w * h && |cr| >= w * h && InFrame(pt, w, h)
    requires cr[PixelIndex(w, h, pt.x, pt.y)] <= bg[PixelIndex(w, h, pt.x, pt.y)]
    ensures pt !in DiffMask(bg, cr, w, h)
  {
  }

  /** A frame equal to the background except for one pixel that brightened by more
      than the threshold yields a mask holding exactly that pixel. */
  lemma SinglePixelChange(bg: seq<int>, w: nat, h: nat, q: nat, v: int)
    requires |bg| >= w * h && q < w * h && v - bg[q] > Threshold
    ensures w > 0
    ensures DiffMask(bg, bg[q := v], w, h) == map[PixelAt(w, q) := true]
  {
    PixelAtInverse(w, h, q);
    var mp := DiffMask(bg, bg[q := v], w, h);
    var single := map[PixelAt(w, q) := true];
    forall pt
      ensures pt in mp <==> pt in single
    {
      if pt in mp {
        var p := PixelIndex(w, h, pt.x, pt.y);
        assert p == q;
      }
    }
    assert mp.Keys == single.Keys;
  }
}
