# Colour spotter: a Dafny model of the per-frame segmentation pipeline

This project models the core of a small OpenCV colour spotter. The user names one
of nine reference colours. The program turns that colour into a pair of HSV
threshold triples. On every camera frame it thresholds the HSV pixels against the
pair, cleans the mask with one 3x3 erosion and one 3x3 dilation, takes Pillow's
bounding box of what is left, and draws the box, its centroid and an area label.
The draw is subject to a `min_area` guard.

Modules, one per source component:

- `Types` (`types.dfy`): bytes, BGR and HSV pixels, boxes and rectangular grids.
- `ObjectDetector` (`object_detector.dfy`): `get_bound_box_by_color`. The hue is
  shifted by ±10 in `uint8` arithmetic, so it wraps modulo 256. Saturation and
  value are fixed at 100..255.
- `Segmentation` (`segmentation.dfy`): the OpenCV operations the frame loop
  applies: colour conversion, `inRange`, and `erode`/`dilate` with the default
  3x3 kernel and border.
- `BoundingBox` (`bounding_box.dfy`): Pillow's `getbbox`. `ScanRow`/`ScanRows`
  state the running extrema as functions. `ScanBBox` is the imperative scan with
  four integers, proved equal to them.
- `Spotter` (`spotter.dfy`): `main.py`. It holds the colour table and name check,
  the draw guard as Python parses it, area, centroid, the per-frame pipeline and
  the frame loop.

Two behaviours of the code differ from what its own text suggests, and the
model follows the code:

- The hue bounds wrap modulo 256, not modulo 180. For a reference hue below 10
  (red, brown and black, whose hue is 0 under OpenCV) no pixel ever passes
  `inRange`, so three of the nine colours never produce a box. The comment
  at src/color_detector.py:43 gives red's interval as hue 0..10.
- No area filter is applied. With argparse's `Namespace`, the guard draws
  whenever `min_area` is non-zero, whatever the area. The `--min-area` help
  text at src/main.py:15 calls it the minimum area to draw a box.

Both bugs are listed under "## Findings". The frame pipeline models the code as
written. The corrected definitions stand beside it and are proved, but the
pipeline does not use them.

BGR-to-HSV conversion is OpenCV's and is not visible here. It is the parameter
`cvt: Bgr -> Hsv`. The same function converts the reference colour and every
frame pixel. Camera frames and key presses are the input `ticks`. What would be
drawn on a frame is returned as an `Annotation`.

## Model

| member | source | states |
|---|---|---|
| `ObjectDetector.U8Sub` | src/object_detector.py:14 | uint8 `hue - 10` is the difference, or the difference plus 256 when it would be negative |
| `ObjectDetector.U8Add` | src/object_detector.py:15 | uint8 `hue + 10` is the sum, or the sum minus 256 when it exceeds 255 |
| `ObjectDetector.U8SubAddRoundTrip` | src/object_detector.py:14-15 | adding back what was subtracted (and vice versa) restores the byte, wrap-around included |
| `ObjectDetector.GetBoundBoxByColor` | src/object_detector.py:5-18 | exactly one lower and one upper triple, each in a one-element list; lower S,V = 100, upper S,V = 255; lower hue + 10 and upper hue − 10 (mod 256) both give back the converted hue |
| `ObjectDetector.BoundsDependOnlyOnHue` | src/object_detector.py:8-15 | two colours whose converted hue is equal get identical bounds |
| `ObjectDetector.HueBoundsWrapModulo256` | src/object_detector.py:11-15 | lower hue = hue − 10, or hue + 246 below 10; upper hue = hue + 10, or hue − 246 from 246 up (modulo 256, not 180) |
| `ObjectDetector.MidHueWindow` | src/object_detector.py:14-15 | for hue 10..179: lower ≤ hue ≤ upper and upper − lower = 20 |
| `ObjectDetector.LowHueInvertsBounds` | src/object_detector.py:14-15 | for hue < 10 the lower hue byte is in 246..255 and exceeds the upper one |
| `Segmentation.CvtColor` | src/main.py:74 | the HSV image has the frame's shape and each pixel is the per-pixel conversion of the frame pixel |
| `Segmentation.InRange` | src/main.py:75 | the mask has the image's shape; a cell is set iff all three channels lie in [lower, upper], inclusively and channel by channel |
| `Segmentation.Erode` | src/main.py:78 | the eroded mask has the input's shape (cell meaning: 3x3 neighbourhood all set, border counts as set) |
| `Segmentation.Dilate` | src/main.py:79 | the dilated mask has the input's shape (cell meaning: some 3x3 neighbour set, border counts as clear) |
| `Segmentation.ErodeShrinks` | src/main.py:78 | erosion never sets a cell that was clear |
| `Segmentation.DilateGrows` | src/main.py:79 | dilation never clears a cell that was set |
| `Segmentation.OpeningShrinks` | src/main.py:77-79 | erode-then-dilate keeps the shape and never sets a cell that was clear in the raw mask |
| `Segmentation.OpeningClearsIsolated` | src/main.py:77-79 | in an image of more than one cell, a cell with no set 8-neighbour is clear after erode-then-dilate |
| `Segmentation.OpeningKeepsSolidRectangle` | src/main.py:77-79 | a solid rectangle of at least 3x3 cells inside the image comes out of erode-then-dilate unchanged |
| `BoundingBox.ScanRow` | src/main.py:82 | running extrema over a row prefix: absent iff no set cell; else x1 and x2−1 are set cells and every set cell lies in [x1, x2) |
| `BoundingBox.ScanRows` | src/main.py:82 | running extrema over the first k rows: absent iff no set cell there; else a non-empty box within those rows that encloses every set cell |
| `BoundingBox.GetBBox` | src/main.py:82-83 | getbbox is None iff the mask has no set cell; otherwise 0 ≤ x1 < x2, 0 ≤ y1 < y2 ≤ height and every set cell lies in [x1,x2)×[y1,y2) |
| `BoundingBox.ScanRowsTouchesEdges` | src/main.py:82 | each edge of the running box passes through a set cell of the rows scanned |
| `BoundingBox.BBoxTouchesEdges` | src/main.py:82-84 | the box is tight: each of its four edges passes through a set cell, and x2 ≤ width |
| `BoundingBox.BBoxOfSolidRectangle` | src/main.py:82-84 | a mask set exactly on a non-empty rectangle yields exactly that rectangle |
| `BoundingBox.ScanRowExtent` | src/main.py:82 | the inner scan over one row reports whether the row holds a set cell and widens the x-extent of the rows before it to that of the rows including it |
| `BoundingBox.ScanBBox` | src/main.py:82 | the row-by-row scan with four running extrema returns exactly getbbox's answer |
| `Spotter.LookupColor` | src/main.py:21-31 | a name gives its BGR value iff it is one of the nine keys; any other name gives the unknown-colour error listing the keys in order |
| `Spotter.ColorKeysListTable` | src/main.py:21-31 | the key list in the error names exactly the table's nine keys, without repetition |
| `Spotter.RunSession` | src/main.py:37-101 | an unknown colour aborts before the camera is opened or any frame is read; a closed camera aborts; otherwise the result is the per-frame outcome of each frame processed, up to the first quit key or the end of the stream |
| `Spotter.RunFrames` | src/main.py:68-101 | the loop returns the outcome of each frame up to and including the first quit key, or of all frames when no quit key comes |
| `Spotter.HandleFrame` | src/main.py:74-90 | the step-by-step loop body (mask reassigned through inRange, erode, dilate; scan; guard) yields exactly the per-frame outcome |
| `Spotter.ProcessAll` | src/main.py:68-90 | one outcome per frame, in order; the i-th is the per-frame outcome of the i-th frame |
| `Spotter.IsQuitKey` | src/main.py:99-100 | for a key byte 0..255 it quits iff the key is Esc (27) or 'q' (113); "no key" (−1, masked to 255) does not quit; `FramesProcessed` uses it to stop |
| `Spotter.FramesProcessed` | src/main.py:68-101 | frames before the last processed one carry no quit key; the last one does unless the stream ran out |
| `Spotter.AnnotateIfKept` | src/main.py:83-90 | an annotation (built by `Annotate`) has getbbox's box, area ≥ 1, its centre is `Centroid` of the box and lies inside it and the label 6 pixels above; with a Namespace it is drawn iff a box exists and min_area ≠ 0; with a dict iff area ≥ min_area |
| `Spotter.ShouldDraw` | src/main.py:86 | with a dict the guard agrees with the intended rule area ≥ min_area; with a Namespace it is min_area ≠ 0 (area-independence: `GuardIgnoresArea`) |
| `Spotter.GuardIgnoresArea` | src/main.py:86 | with a Namespace the guard gives the same answer for every area: true iff min_area ≠ 0 |
| `Spotter.GuardCounterexamples` | src/main.py:86 | a 1-cell region passes a min_area of 300; min_area 0 draws nothing even at area 7000 (the intended rule says the opposite in both) |
| `Spotter.IntendedGuardThreshold` | src/main.py:86 | the intended guard keeps area = min_area, drops min_area − 1, and is monotone in the area |
| `Spotter.Area` | src/main.py:85 | a non-empty box has area ≥ 1, a degenerate one area 0 |
| `Spotter.AreaPositive` | src/main.py:85 | a present box has area (x2−x1)(y2−y1) ≥ 1 |
| `Spotter.Centroid` | src/main.py:88 | each centroid coordinate is the corner plus half the extent, rounded down (floor division) |
| `Spotter.CentroidInside` | src/main.py:88 | the centroid of a non-empty box lies in [x1,x2)×[y1,y2) |
| `Spotter.SelectBounds` | src/main.py:51-52 | the lower triple has S,V = 100 and the upper 255; both hue bytes give back the reference hue through the uint8 wrap (the window itself: `ResolvedBoundsWindow`, `LowHueMatchesNothing`) |
| `Spotter.ProcessFrame` | src/main.py:74-90 | the cleaned mask (`CleanMask`: convert, inRange, erode, dilate) has the frame's shape; a drawn rectangle is getbbox's box of it; with a Namespace a box is drawn iff min_area ≠ 0 and some cleaned cell is set, with a dict iff getbbox finds a box whose area reaches min_area; the rectangle encloses every surviving pixel, each of which matched the bounds |
| `Spotter.ResolvedBoundsWindow` | src/main.py:51-75 | for a reference hue of 10..179 a pixel passes iff its hue is within ±10 and saturation and value are at least 100 |
| `Spotter.LowHueMatchesNothing` | src/main.py:51-75 | for a reference hue below 10 no pixel passes the inclusive check |
| `Spotter.LowHueNeverAnnotates` | src/main.py:74-90 | for a reference hue below 10 no frame ever gets a box or an annotation |
| `Spotter.DetectsSolidRectangle` | src/main.py:74-90 | when the matching pixels form a solid rectangle of at least 3x3 inside the frame, the annotation is exactly that rectangle whenever min_area ≠ 0 |
| `Spotter.RedPixelRejected` | src/object_detector.py:14-15 | with red converted to hue 0, the pure red pixel (0,255,255) fails the bounds, although the intended hue test accepts it |
| `Spotter.IntendedHueWindowWraps` | src/object_detector.py:14-15 | the intended mod-180 hue test for a reference hue h0 < 10 accepts exactly hues ≤ h0+10 and ≥ 170+h0 |

## Left out

- BGR-to-HSV conversion (`cv2.cvtColor`): OpenCV's fixed-point tables are not visible here, so the per-pixel conversion is the parameter `cvt`. No property depends on its formula. Hue is a `Byte` and is not restricted to 0..179; the lemmas that need that range state it.
- Camera I/O: opening the device is the input `cameraOpened`. Each read frame and the `waitKey` value after it are the `ticks`. The end of `ticks` is the failed read. The message printed at stream end, the release of the capture and `destroyAllWindows` are not modelled.
- The `--save` path: the warm-up read, its "no frame" error, the video writer and the reset of the frame position are I/O and are not modelled.
- Window display (`imshow`, the optional mask window) is not modelled.
- Argument parsing is not modelled. `Args` carries only `min_area`. The colour name is passed separately. The camera index, `--show-mask` and `--save` do not affect the modelled behaviour.
- Drawing (`cv2.rectangle`, `cv2.circle`, `cv2.putText`): the in-place rasterisation into the frame is not modelled. The model records what is drawn and where, as an `Annotation`.
- Masks are grids of booleans. OpenCV's 0/255 bytes are not modelled, because erosion and dilation on 0/255 act as boolean AND/OR.
- Pillow's own `getbbox` implementation is not part of this model. Its documentation promises only the result: the box of the non-zero pixels, or None. `GetBBox` states that result. `ScanBBox` follows the row-by-row running-extrema scan of Pillow's C implementation.
- The error `cv2.cvtColor` raises on an empty frame (no rows or no columns) is not modelled. The source aborts there; the model converts the empty frame to an empty image and the frame yields no box.
- src/color_detector.py is not part of this model. It is a module-level webcam script whose logic is a subset of the frame loop without morphology or the guard.
- Segmentation.Erode: its contract states only the shape. What each cell means is stated by `ErodedAt` and used in the lemmas.
- Segmentation.Dilate: its contract states only the shape. What each cell means is stated by `DilatedAt` and used in the lemmas.

## Findings

| source | as written | input that shows it | evidently intended | confidence | as-written member | corrected member |
|---|---|---|---|---|---|---|
| src/main.py:86 | The conditional expression binds loosest, so with argparse's Namespace the guard is the truthiness of `min_area` alone. | min_area 300 with a 1-cell box: drawn. min_area 0 with a 7000-cell box: not drawn. | Draw iff area ≥ min_area. | high; not executed | `Spotter.GuardCounterexamples` | `Spotter.IntendedGuardThreshold` |
| src/object_detector.py:14-15 | The hue bounds are computed in uint8 and wrap modulo 256. For hue < 10 the lower bound (246..255) exceeds the upper one. | Reference red (hue 0) gives hue bounds 246 and 10. The pure red pixel (0,255,255) fails `inRange`. Brown (42,42,165) and black also convert to hue 0. | Hue window wrapping modulo 180, so hues 0..10 and 170..179 match red. | high; not executed | `Spotter.RedPixelRejected` | `Spotter.IntendedHueWindowWraps` |
