/** The per-tick logic of main.go's `Game`: the zeroed background of `init`
    (line 55), the initial state of `newGame` (lines 113-121) and `Game.Update`
    (lines 123-148) with its motion gate and background capture. */
module Game {
  import opened Frame
  import opened GrayCache
  import opened Diff
  import opened Raster

  const ScreenWidth: nat := 320
  const ScreenHeight: nat := 240
  const ButtonWidth: int := 100
  const ButtonHeight: int := 50

  /** The velocity a motion hit at the probe forces. */
  const BounceVelocity: real := -1.0
  /** The gravity increment `Update` adds to the velocity every tick. */
  const Gravity: real := 0.01
  /** The velocity `newGame` starts with. */
  const InitialVelocity: real := 0.25

  datatype Option<T> = None | Some(value: T)

  /** `make(graycache, n)`: a cache of n zero luminances. */
  function ZeroCache(n: nat): (c: seq<int>)
    ensures |c| == n
    ensures forall i :: 0 <= i < n ==> c[i] == 0
  {
    seq(n, _ => 0)
  }

  /** The capture button's rectangle, edges included: its top-left corner is at
      (ScreenWidth/2 - ButtonWidth/2, ScreenHeight + ButtonHeight). */
  predicate InsideButton(cx: int, cy: int)
    ensures InsideButton(cx, cy) <==> 110 <= cx <= 210 && 290 <= cy <= 340
  {
    var sx, sy := ScreenWidth / 2 - ButtonWidth / 2, ScreenHeight + ButtonHeight;
    cx >= sx && cx <= sx + ButtonWidth && cy >= sy && cy <= sy + ButtonHeight
  }

  /** The pixel the gate probes: the screen's centre column at the given row. */
  function Probe(row: int): (pt: Point)
    ensures pt.x == 160 && pt.y == row
    ensures InFrame(pt, ScreenWidth, ScreenHeight) <==> 0 <= row < ScreenHeight
  {
    Point(ScreenWidth / 2, row)
  }

  /** Go's map index `mp[pt]`: a missing key reads as false. */
  function Lookup(mp: map<Point, bool>, pt: Point): (hit: bool)
    ensures hit <==> pt in mp && mp[pt]
    ensures pt !in mp ==> !hit
  {
    if pt in mp then mp[pt] else false
  }

  /** What the gate does to the velocity this tick. */
  datatype Motion = Bounce | Rest | Fall

  /** The gate of `Update`: a hit at the probe bounces, whatever the floor test
      says; only without a hit does being below the floor bring the object to
      rest; otherwise it keeps falling. */
  function GateDecision(mp: map<Point, bool>, probeRow: int, belowFloor: bool): (d: Motion)
    ensures d == Bounce <==> Lookup(mp, Probe(probeRow))
    ensures d == Rest <==> !Lookup(mp, Probe(probeRow)) && belowFloor
    ensures d == Fall <==> !Lookup(mp, Probe(probeRow)) && !belowFloor
  {
    if Lookup(mp, Probe(probeRow)) then Bounce
    else if belowFloor then Rest
    else Fall
  }

  /** The velocity after the gate, given the velocity `gv += 0.01` just produced. */
  function NextVelocity(d: Motion, gv: real): (v: real)
    ensures d == Bounce ==> v == BounceVelocity
    ensures d == Rest ==> v == 0.0
    ensures d == Fall ==> v == gv
  {
    match d
    case Bounce => BounceVelocity
    case Rest => 0.0
    case Fall => gv
  }

  /** A hit at the probe forces the bounce velocity, whatever the floor test and the
      prior velocity. */
  lemma BounceOverridesFloor(mp: map<Point, bool>, probeRow: int, belowFloor: bool, gv: real)
    requires Probe(probeRow) in mp && mp[Probe(probeRow)]
    ensures NextVelocity(GateDecision(mp, probeRow, belowFloor), gv) == BounceVelocity
  {
  }

  /** Against the all-zero startup background the object bounces exactly when the
      probe lies on screen and its pixel's luminance exceeds the threshold. */
  lemma StartupBounceOnBrightProbe(data: seq<byte>, probeRow: int, belowFloor: bool)
    requires |data| >= 4 * (ScreenWidth * ScreenHeight)
    ensures var mp := DiffMask(ZeroCache(ScreenWidth * ScreenHeight),
                               GrayCacheOf(data, ScreenWidth, ScreenHeight),
                               ScreenWidth, ScreenHeight);
      GateDecision(mp, probeRow, belowFloor) == Bounce <==>
        0 <= probeRow < ScreenHeight &&
        LumaAt(data, PixelIndex(ScreenWidth, ScreenHeight, ScreenWidth / 2, probeRow)) > Threshold
  {
    ZeroBackgroundAgainstFrame(ZeroCache(ScreenWidth * ScreenHeight), data,
                               ScreenWidth, ScreenHeight, Probe(probeRow));
  }

  /** Once a frame has been captured as the background, the same frame never makes
      the object bounce: only the floor test decides. */
  lemma CapturedFrameNeverBounces(data: seq<byte>, probeRow: int, belowFloor: bool)
    requires |data| >= 4 * (ScreenWidth * ScreenHeight)
    ensures var c := GrayCacheOf(data, ScreenWidth, ScreenHeight);
      GateDecision(DiffMask(c, c, ScreenWidth, ScreenHeight), probeRow, belowFloor) ==
        if belowFloor then Rest else Fall
  {
    IdenticalCachesGiveEmptyMask(GrayCacheOf(data, ScreenWidth, ScreenHeight),
                                 ScreenWidth, ScreenHeight);
  }

  class Game {
    /** The background cache (`bgCache`, a package variable in main.go). */
    var bgCache: seq<int>
    /** The vertical velocity `gv`. */
    var gv: real
    /** The image drawn this tick, `drawImg`. */
    var drawImg: seq<Rgba>

    ghost predicate Valid()
      reads this
    {
      |bgCache| == ScreenWidth * ScreenHeight
    }

    /** `init` zeroes the background and `newGame` starts with velocity 0.25 and a
        blank screen-sized image. */
    constructor ()
      ensures Valid()
      ensures bgCache == ZeroCache(ScreenWidth * ScreenHeight)
      ensures gv == InitialVelocity
      ensures drawImg == seq(ScreenWidth * ScreenHeight, _ => Rgba(0, 0, 0, 0))
    {
      bgCache := ZeroCache(ScreenWidth * ScreenHeight);
      gv := InitialVelocity;
      drawImg := seq(ScreenWidth * ScreenHeight, _ => Rgba(0, 0, 0, 0));
    }

    /** One tick of `Update`. `frame` is None while the camera is not ready, and the
        tick then changes nothing. Otherwise: gravity is added to the velocity, the
        frame is reduced to a cache and diffed against the background, the gate
        sets the velocity, the frame becomes the drawn image, and a press inside
        the button replaces the background by a new cache of this frame.
        `probeRow` is `int(g.y)` and `belowFloor` is the floor comparison, both
        computed by the position update that is not part of this model; `pressed`
        and (cx, cy) are the left button and the cursor position. */
    method Update(frame: Option<seq<byte>>, probeRow: int, belowFloor: bool,
                  pressed: bool, cx: int, cy: int)
      requires Valid()
      requires frame.Some? ==> |frame.value| >= 4 * (ScreenWidth * ScreenHeight)
      modifies this
      ensures Valid()
      ensures frame.None? ==>
        bgCache == old(bgCache) && gv == old(gv) && drawImg == old(drawImg)
      ensures frame.Some? ==>
        var data := frame.value;
        var mask := DiffMask(old(bgCache), GrayCacheOf(data, ScreenWidth, ScreenHeight),
                             ScreenWidth, ScreenHeight);
        && gv == NextVelocity(GateDecision(mask, probeRow, belowFloor), old(gv) + Gravity)
        && drawImg == ImageOf(data, ScreenWidth, ScreenHeight)
        && bgCache == (if pressed && InsideButton(cx, cy)
                       then GrayCacheOf(data, ScreenWidth, ScreenHeight)
                       else old(bgCache))
    {
      if frame.None? {
        return;
      }
      var data := frame.value;
      gv := gv + Gravity;
      var crCache := NewGrayCacheFromData(data, ScreenWidth, ScreenHeight);
      var mp := CacheDiffBitmap(bgCache, crCache, ScreenWidth, ScreenHeight);
      if Lookup(mp, Probe(probeRow)) {
        gv := BounceVelocity;
      } else if belowFloor {
        gv := 0.0;
      }
      drawImg := NewImage(data, ScreenWidth, ScreenHeight);
      if pressed && InsideButton(cx, cy) {
        bgCache := NewGrayCacheFromData(data, ScreenWidth, ScreenHeight);
      }
    }
  }
}
