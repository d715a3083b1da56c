# Lifting gopher: background subtraction, in Dafny

A model of the motion-detection core of the lifting-gopher toy (`main.go`). A
camera frame arrives as a row-major buffer of 4 bytes per pixel. It is reduced
to a gray cache, which holds one BT.601 luminance per pixel at slot `y*w + x`.
The cache is compared pixel by pixel with a stored background cache. Every pixel
that became brighter than the background by more than 30 goes into a motion mask
`map[Point]bool`. Each tick a gate probes the mask at the screen's centre column:
a hit makes the gopher bounce, otherwise a floor test can bring it to rest. The
background starts as an all-zero cache. It is replaced by a new cache of the
current frame when the user clicks inside the capture button.

Modules, one per component of `main.go`:

- `Frame` (frame.dfy): bytes, `Point`, and the slot `y*w + x` of a pixel, with proofs that the slot stays inside the buffer and that distinct pixels get distinct slots.
- `Luminance` (luminance.dfy): `color.RGBA.RGBA()` widening and `grayscale`.
- `GrayCache` (graycache.dfy): `newGrayCacheFromData`, written as a method with the source's nested loops, and the function it is proved against.
- `Diff` (diff.dfy): `isOverThreshold` and `cacheDiffBitmap`, the motion mask.
- `Raster` (raster.dfy): `newImage`, including its quirk: the alpha of each pixel is the blue byte, not the fourth byte.
- `Game` (game.dfy): the zeroed background, `newGame`'s start state, the gate, and `Game.Update` as a class method over the background, velocity and drawn image.

Buffer sizes are preconditions. Caches need at least `w*h` entries; with fewer,
the Go code panics on an out-of-range index. A raw buffer needs the full `4*w*h`
bytes. That is one byte more than the loops read, since the fourth byte of the
last pixel is never read; the camera always delivers the full buffer
(`getImageData` over the whole 320x240 canvas).

## Model

| member | source | states |
|---|---|---|
| Frame.PixelIndex | main.go:202 | the slot `y*w + x` of a pixel in the frame is below `w*h`, and `slot / w == y`, `slot % w == x`, so distinct pixels never share a slot |
| Frame.PixelAtInverse | main.go:199-208 | every slot below `w*h` is the slot of exactly one in-frame pixel, so the nested loops write every cache entry |
| Luminance.Widen | main.go:206 | `color.RGBA.RGBA()` widens a byte to a 16-bit value from which `/257` recovers the byte exactly |
| Luminance.Grayscale | main.go:212-214 | the weighted luminance lies between the darkest and the brightest of the three recovered channels |
| Luminance.GrayscaleIgnoresFourthChannel | main.go:212 | the fourth argument never changes the result |
| Luminance.PixelLuma | main.go:203-206 | the luminance stored for bytes r, g, b (`grayscale(color.RGBA{r, g, b, 0}.RGBA())`) lies between the darkest and the brightest of the three bytes |
| Luminance.PixelLumaFormula | main.go:212-214 | the stored luminance of bytes r, g, b is `(299r + 587g + 114b) / 1000` |
| Luminance.PixelLumaInRange | main.go:212-214 | every luminance is in [0, 255] |
| Luminance.PixelLumaIsFloorOfWeightedSum | main.go:213 | the luminance is the whole part of the exact real sum `0.299R + 0.587G + 0.114B` |
| Luminance.PixelLumaOfGray | main.go:213 | a gray sample (r = g = b = c) has luminance c, so black gives 0 and white gives 255 |
| Luminance.PixelLumaExample | main.go:213 | (10, 20, 30) gives 18 |
| Luminance.PixelLumaMonotone | main.go:213 | raising any channel never lowers the luminance |
| GrayCache.NewGrayCacheFromData | main.go:198-210 | the cache has exactly `w*h` entries, and entry `y*w + x` is the luminance of bytes `4p`, `4p+1`, `4p+2` of pixel `p = y*w + x`, for every pixel |
| GrayCache.GrayCacheInRange | main.go:198-214 | every cache entry is in [0, 255] |
| GrayCache.GrayCacheIgnoresFourthByte | main.go:202-206 | two buffers that agree on the first three bytes of every pixel give the same cache |
| GrayCache.GrayCacheIgnoresAlphaWrite | main.go:202-206 | overwriting byte `4q+3` of a buffer leaves its cache unchanged |
| Diff.IsOverThreshold | main.go:228-230 | the test passes iff the difference is at least `t + 1`, so a difference equal to `t` never passes |
| Diff.DiffMask | main.go:216-230 | the mask holds `Point{x, y}` iff the pixel is in the frame and `cr[p] - bg[p] > 30`, and every value in it is true |
| Diff.CacheDiffBitmap | main.go:216-226 | the map the loops build contains `Point{x, y}`, mapped to true, iff `0 <= x < w`, `0 <= y < h` and `cr[y*w+x] - bg[y*w+x] > 30` |
| Diff.IdenticalCachesGiveEmptyMask | main.go:216-226 | diffing a cache against itself gives the empty map |
| Diff.ZeroBackgroundFlagsBrightPixels | main.go:216-226 | against an all-zero background (the one line 55 creates) a pixel is flagged iff its current luminance exceeds 30 |
| Diff.ZeroBackgroundAgainstFrame | main.go:198-226 | against an all-zero background, the mask of a raw frame holds exactly the pixels whose RGB bytes have luminance above 30 |
| Diff.ThresholdIsStrict | main.go:228-230 | a difference of exactly 30 is not flagged and a difference of 31 is |
| Diff.DarkerNeverFlagged | main.go:220 | a pixel no brighter than the background is never flagged |
| Diff.SinglePixelChange | main.go:216-226 | a frame equal to the background except for one pixel brightened by more than 30 gives a mask holding exactly that pixel |
| Raster.NewImage | main.go:181-194 | the image has `w*h` pixels; pixel `(x, y)` takes R, G, B from bytes `4p`, `4p+1`, `4p+2` and its alpha from byte `4p+2` as well |
| Raster.ImageCopiesBufferWhenAlphaIsBlue | main.go:185-190 | when every pixel's fourth byte equals its blue byte, the image's RGBA bytes equal the buffer |
| Raster.ImageAlphaIgnoresFourthByte | main.go:189 | at a pixel whose fourth byte differs from its blue byte, the image's alpha is the blue byte and differs from the buffer |
| Game.ZeroCache | main.go:55 | the initial background has `n` entries, all zero |
| Game.Probe | main.go:132 | the probe is `Point{160, row}`, and it lies in the frame iff `0 <= row < 240` |
| Game.Lookup | main.go:132 | the map read is true iff the key is present and mapped to true; a missing key reads as false |
| Game.InsideButton | main.go:142-143 | a cursor is inside the button iff `110 <= x <= 210` and `290 <= y <= 340`, edges included |
| Game.GateDecision | main.go:132-136 | bounce iff the mask holds the probe `Point{ScreenWidth/2, row}`; rest iff there is no hit and the floor test holds; fall otherwise |
| Game.NextVelocity | main.go:132-136 | a bounce sets the velocity to exactly -1 and rest sets it to exactly 0; falling keeps the velocity `gv += 0.01` produced |
| Game.BounceOverridesFloor | main.go:132-135 | a probe hit forces velocity -1 whatever the floor test and the prior velocity |
| Game.StartupBounceOnBrightProbe | main.go:130-133 | with the zero background, the gate bounces iff the probe row is on screen and the probe pixel's luminance exceeds 30 |
| Game.CapturedFrameNeverBounces | main.go:130-145 | once a frame is captured as background, the same frame never triggers a bounce; only the floor test decides |
| Game.Game.constructor | main.go:113-121 | the game starts with a zero background of 320x240 entries, velocity 0.25 and a blank image |
| Game.Game.Update | main.go:123-148 | without a frame nothing changes; with one, the velocity is the gate's verdict on `gv + 0.01`, the drawn image is the frame's raster, and the background becomes a new cache of the frame exactly when the press is inside the button, otherwise it is unchanged |

## Left out

- Camera and DOM plumbing (`init`'s `getUserMedia` promise, `fetchVideoFrame`, the `js.Value` calls, main.go:44-87) are foreign asynchronous calls. The frame reaches `Update` as a parameter, `None` while the camera is not ready.
- Rendering and UI (`buttonImage`, `Draw`, `Layout`, `main`, font and gopher image decoding, the FPS print) wrap a library outside this model. The drawn image is the pixel sequence `newImage` produces; the `ebiten.NewImageFromImage` copy is not modelled.
- The images are sequences of colours, one per pixel at slot `y*w + x`. `Raster.Pix` gives the `image.RGBA` byte layout of such a sequence (stride `4*w`, origin at (0, 0)).
- Grayscale: Go computes `0.299*r + 0.587*g + 0.114*b` in float64 and truncates. The model uses the exact per-mille sum. The two agree except where the exact sum is an integer and float rounding lands just below it; for instance (0, 72, 24), whose exact sum is 45, gives 44 in float64.
- Luminance.PixelLumaOfGray: the lemma holds of the per-mille formula, not of the float64 sum of main.go:213, whose three weights do not add up to exactly one in double precision. For 65 of the 256 gray levels the float64 sum truncates to c-1 (for instance 1 gives 0, and 2, 4, 8, 11, 13 are also affected). Black (0) and white (255) agree.
- Game.Game.Update: the velocity is an exact real, so the float64 rounding of `gv += 0.01` is not modelled. The position `g.y`, its update `g.y += g.gv`, the `int(g.y)` conversion and the floor comparison with the gopher image's height are not modelled either. The probe row and the floor test are inputs.
- Game.Game.Update: mouse hit-testing is reduced to inputs. The press and the cursor position are parameters, and the button rectangle (x from 110 to 210, y from 290 to 340, edges included) is the predicate `InsideButton`.
- Raw buffers of exactly `4*w*h - 1` bytes are refused by the model although the Go loops would not read past their end. The camera never delivers such a buffer.
- Go's `int` is 64 bits, so `cr[p] - bg[p]` could wrap for extreme values. The model subtracts unbounded integers. This does not matter in the program, because every cache it builds holds values in [0, 255] (`GrayCache.GrayCacheInRange`).
- The threshold is the constant 30 that `cacheDiffBitmap` passes, not a setting. There is no dimension-mismatch error either: the code has no length check, so cache lengths are preconditions.
- The initial velocity is 0.25, as `newGame` sets it, not 0.
- No black-and-white raster of the mask is modelled, because the code has none: `newImage` renders the camera frame itself.
- Concurrency: the program is single-threaded. Replacing the background assigns a whole new value, so a diff never sees a mix of two backgrounds.
