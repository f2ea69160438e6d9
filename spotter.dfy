/**
 * main.py: the named colour table and its check, the per-frame pipeline
 * (convert, inRange, erode, dilate, getbbox, area, draw guard, centroid) and
 * the frame loop. Camera frames and key presses are inputs; what would be drawn
 * on a frame is returned as an Annotation instead of being rasterised.
 */
module Spotter {
  import opened Types
  import opened ObjectDetector
  import opened Segmentation
  import opened BoundingBox

  /** The nine named reference colours, BGR order, as the table in main.py lists them. */
  const BgrColors: map<string, Bgr> := map[
    "yellow" := Bgr(0, 255, 255),
    "blue" := Bgr(255, 0, 0),
    "red" := Bgr(0, 0, 255),
    "green" := Bgr(0, 255, 0),
    "orange" := Bgr(0, 165, 255),
    "purple" := Bgr(128, 0, 128),
    "pink" := Bgr(147, 20, 255),
    "brown" := Bgr(42, 42, 165),
    "black" := Bgr(0, 0, 0)
  ]

  /** The table's keys in insertion order, as the error message lists them. */
  const ColorKeys: seq<string> := ["yellow", "blue", "red", "green", "orange", "purple", "pink", "brown", "black"]

  datatype SessionError =
    | UnknownColor(name: string, available: seq<string>)
    | CameraNotOpened

  /** The colour check at the top of main(): a known name yields its BGR value, any other aborts. */
  function LookupColor(name: string): (r: Result<Bgr, SessionError>)
    ensures r.Err? <==> name !in ColorKeys
    ensures r.Err? ==> r.error == UnknownColor(name, ColorKeys)
    ensures r.Ok? ==> name in BgrColors && r.value == BgrColors[name]
  {
    if name in BgrColors then Ok(BgrColors[name]) else Err(UnknownColor(name, ColorKeys))
  }

  /** The key list offered in the error message names exactly the table's keys, each once. */
  lemma ColorKeysListTable()
    ensures forall name :: name in BgrColors <==> name in ColorKeys
    ensures |ColorKeys| == 9
    ensures forall i, j :: 0 <= i < j < |ColorKeys| ==> ColorKeys[i] != ColorKeys[j]
  {
  }

  /**
   * The parsed options as far as the guard reads them: argparse's Namespace (what
   * main() always has) or a dict, both carrying min_area.
   */
  datatype Args = Namespace(minArea: int) | Dict(minArea: int)

  /**
   * The draw guard as Python parses it: the conditional expression binds loosest, so
   * a dict compares the area with its min_area entry, while any other object (the
   * Namespace) yields its min_area attribute itself, an int that is true when non-zero.
   */
  function ShouldDraw(area: int, args: Args): (draw: bool)
    ensures args.Dict? ==> (draw <==> ShouldDrawIntended(area, args.minArea))
    ensures args.Namespace? ==> (draw <==> args.minArea != 0)
  {
    match args
    case Dict(minArea) => area >= minArea
    case Namespace(minArea) => minArea != 0
  }

  /** With a Namespace, the guard's verdict is the same for every area. */
  lemma GuardIgnoresArea(a1: int, a2: int, minArea: int)
    ensures ShouldDraw(a1, Namespace(minArea)) == ShouldDraw(a2, Namespace(minArea))
    ensures ShouldDraw(a1, Namespace(minArea)) <==> minArea != 0
  {
  }

  /** Two inputs that expose the guard: a one-cell region beats a 300 threshold, and min_area 0 draws nothing. */
  lemma GuardCounterexamples()
    ensures ShouldDraw(1, Namespace(300)) && !ShouldDrawIntended(1, 300)
    ensures !ShouldDraw(7000, Namespace(0)) && ShouldDrawIntended(7000, 0)
  {
  }

  /** The evidently intended guard: keep a region whose area reaches min_area. */
  function ShouldDrawIntended(area: int, minArea: int): (keep: bool)
  {
    area >= minArea
  }

  /** The intended guard keeps an area of exactly min_area, drops min_area - 1, and is monotone in the area. */
  lemma IntendedGuardThreshold(minArea: int, a1: int, a2: int)
    ensures ShouldDrawIntended(minArea, minArea) && !ShouldDrawIntended(minArea - 1, minArea)
    ensures a1 <= a2 && ShouldDrawIntended(a1, minArea) ==> ShouldDrawIntended(a2, minArea)
  {
  }

  /** The box's area: width times height. */
  function Area(b: Box): (a: int)
    ensures b.x1 < b.x2 && b.y1 < b.y2 ==> a >= 1
    ensures b.x1 == b.x2 || b.y1 == b.y2 ==> a == 0
  {
    var (w, h) := (b.x2 - b.x1, b.y2 - b.y1);
    assert w >= 1 && h >= 1 ==> w * h >= 1 by {
      if w >= 1 && h >= 1 {
        ProductOfPositives(w, h);
      }
    }
    w * h
  }

  /**
   * The centroid: each corner coordinate plus half the extent, halved with floor
   * division. Python's `//` floors; Dafny's `/` by the positive 2 floors as well,
   * for any sign of the dividend.
   */
  function Centroid(b: Box): (c: (int, int))
    ensures 2 * (c.0 - b.x1) <= b.x2 - b.x1 <= 2 * (c.0 - b.x1) + 1
    ensures 2 * (c.1 - b.y1) <= b.y2 - b.y1 <= 2 * (c.1 - b.y1) + 1
  {
    (b.x1 + (b.x2 - b.x1) / 2, b.y1 + (b.y2 - b.y1) / 2)
  }

  /** The centroid of a non-empty box lies inside it. */
  lemma CentroidInside(b: Box)
    requires b.x1 < b.x2 && b.y1 < b.y2
    ensures Encloses(b, Centroid(b).0, Centroid(b).1)
  {
  }

  /**
   * What main() draws on the frame for a kept box: the rectangle, a dot at the
   * centroid, and the label `area=<area>` placed 6 pixels above the top-left corner.
   */
  datatype Annotation = Annotation(rect: Box, centre: (int, int), area: int, labelOrigin: (int, int))

  function Annotate(b: Box): Annotation
  {
    Annotation(b, Centroid(b), Area(b), (b.x1, b.y1 - 6))
  }

  /** The thresholds main() takes from the detector: element 0 of each one-element list. */
  function SelectBounds(color: Bgr, cvt: Bgr -> Hsv): (r: (Hsv, Hsv))
    ensures r.0.s == MinSatVal && r.0.v == MinSatVal && r.1.s == MaxSatVal && r.1.v == MaxSatVal
    ensures U8Add(r.0.h, HueTolerance) == cvt(color).h && U8Sub(r.1.h, HueTolerance) == cvt(color).h
  {
    var lists := GetBoundBoxByColor(color, cvt);
    (lists.lowerList[0], lists.upperList[0])
  }

  /** The mask after conversion, inRange, one erosion and one dilation. */
  function CleanMask(frame: seq<seq<Bgr>>, cvt: Bgr -> Hsv, lo: Hsv, hi: Hsv): seq<seq<bool>>
  {
    Dilate(Erode(InRange(CvtColor(frame, cvt), lo, hi)))
  }

  /** A non-empty box has a positive area. */
  lemma AreaPositive(b: Box)
    requires b.x1 < b.x2 && b.y1 < b.y2
    ensures Area(b) >= 1
  {
    ProductOfPositives(b.x2 - b.x1, b.y2 - b.y1);
  }

  lemma ProductOfPositives(w: int, h: int)
    requires w >= 1 && h >= 1
    ensures w * h >= 1
  {
  }

  /**
   * What the loop body does with getbbox's answer: nothing without a box or when
   * the guard declines, otherwise the annotation of the box.
   */
  function AnnotateIfKept(box: Option<Box>, args: Args): (r: Option<Annotation>)
    requires box.Some? ==> box.value.x1 < box.value.x2 && box.value.y1 < box.value.y2
    ensures r.Some? ==> box == Some(r.value.rect) && r.value.area == Area(r.value.rect) >= 1
    ensures r.Some? ==> r.value.centre == Centroid(r.value.rect)
    ensures r.Some? ==> Encloses(r.value.rect, r.value.centre.0, r.value.centre.1)
    ensures r.Some? ==> r.value.labelOrigin == (r.value.rect.x1, r.value.rect.y1 - 6)
    ensures args.Namespace? ==> (r.Some? <==> box.Some? && args.minArea != 0)
    ensures args.Dict? ==> (r.Some? <==> box.Some? && Area(box.value) >= args.minArea)
  {
    match box
    case None => None
    case Some(b) =>
      AreaPositive(b);
      CentroidInside(b);
      if ShouldDraw(Area(b), args) then Some(Annotate(b)) else None
  }

  /**
   * One pass of the frame loop's body, from the camera frame to what is drawn on
   * it: getbbox's box of the cleaned mask, drawn when the mask has a set cell and
   * the guard agrees. A drawn rectangle encloses every pixel that survives the
   * cleaning, and each of those pixels matched the bounds.
   */
  function ProcessFrame(frame: seq<seq<Bgr>>, cvt: Bgr -> Hsv, lo: Hsv, hi: Hsv, args: Args): (r: Option<Annotation>)
    ensures SameShape(CleanMask(frame, cvt, lo, hi), frame)
    ensures r.Some? ==> GetBBox(CleanMask(frame, cvt, lo, hi)) == Some(r.value.rect)
    ensures args.Namespace? ==> (r.Some? <==>
      (args.minArea != 0 &&
       exists y, x :: 0 <= y < |frame| && 0 <= x < |frame[y]| && CleanMask(frame, cvt, lo, hi)[y][x]))
    ensures args.Dict? ==> (r.Some? <==>
      (var b := GetBBox(CleanMask(frame, cvt, lo, hi)); b.Some? && Area(b.value) >= args.minArea))
    ensures r.Some? ==> forall y, x :: 0 <= y < |frame| && 0 <= x < |frame[y]| && CleanMask(frame, cvt, lo, hi)[y][x] ==>
      Encloses(r.value.rect, x, y) && Within(cvt(frame[y][x]), lo, hi)
  {
    OpeningShrinks(InRange(CvtColor(frame, cvt), lo, hi));
    AnnotateIfKept(GetBBox(CleanMask(frame, cvt, lo, hi)), args)
  }

  /** For a reference hue of 10..179 a pixel passes iff its hue is within 10 and saturation and value reach 100. */
  lemma ResolvedBoundsWindow(color: Bgr, cvt: Bgr -> Hsv, p: Hsv)
    requires 10 <= cvt(color).h <= 179
    ensures var (lo, hi) := SelectBounds(color, cvt);
      Within(p, lo, hi) <==> cvt(color).h - 10 <= p.h <= cvt(color).h + 10 && p.s >= 100 && p.v >= 100
  {
    HueBoundsWrapModulo256(color, cvt);
  }

  /** For a reference hue below 10 the inverted hue bounds admit no pixel at all. */
  lemma LowHueMatchesNothing(color: Bgr, cvt: Bgr -> Hsv, p: Hsv)
    requires cvt(color).h < 10
    ensures var (lo, hi) := SelectBounds(color, cvt);
      !Within(p, lo, hi)
  {
    LowHueInvertsBounds(color, cvt);
  }

  /** For a reference hue below 10 (red, brown and black under OpenCV) no frame ever gets an annotation. */
  lemma LowHueNeverAnnotates(color: Bgr, cvt: Bgr -> Hsv, frame: seq<seq<Bgr>>, args: Args)
    requires cvt(color).h < 10
    ensures var (lo, hi) := SelectBounds(color, cvt);
      ProcessFrame(frame, cvt, lo, hi, args) == None
  {
    var (lo, hi) := SelectBounds(color, cvt);
    var raw := InRange(CvtColor(frame, cvt), lo, hi);
    forall y, x | 0 <= y < |raw| && 0 <= x < |raw[y]|
      ensures !raw[y][x]
    {
      LowHueMatchesNothing(color, cvt, CvtColor(frame, cvt)[y][x]);
    }
    OpeningShrinks(raw);
    assert GetBBox(Dilate(Erode(raw))).None?;
  }

  /**
   * A frame whose matching pixels form a solid rectangle of at least 3x3 cells
   * gets exactly that rectangle as its box, drawn whenever min_area is non-zero.
   */
  lemma DetectsSolidRectangle(frame: seq<seq<Bgr>>, cvt: Bgr -> Hsv, lo: Hsv, hi: Hsv, minArea: int, b: Box)
    requires IsGrid(frame) && FitsIn(b, frame)
    requires b.x2 - b.x1 >= 3 && b.y2 - b.y1 >= 3
    requires forall y, x :: 0 <= y < |frame| && 0 <= x < |frame[y]| ==>
      (Within(cvt(frame[y][x]), lo, hi) <==> Encloses(b, x, y))
    requires minArea != 0
    ensures ProcessFrame(frame, cvt, lo, hi, Namespace(minArea)) == Some(Annotate(b))
  {
    var raw := InRange(CvtColor(frame, cvt), lo, hi);
    assert IsGrid(raw) && FitsIn(b, raw);
    assert IsRectMask(raw, b);
    OpeningKeepsSolidRectangle(raw, b);
    BBoxOfSolidRectangle(raw, b);
  }

  /** The evidently intended hue test: circular distance of at most 10 on OpenCV's 0..179 hue circle. */
  predicate HueMatchesIntended(h0: int, h: int)
  {
    var d := (h - h0) % 180;
    d <= 10 || d >= 170
  }

  /** Near zero the intended window wraps through the top of the hue circle. */
  lemma IntendedHueWindowWraps(h0: int, h: int)
    requires 0 <= h0 < 10 && 0 <= h < 180
    ensures HueMatchesIntended(h0, h) <==> h <= h0 + 10 || h >= 170 + h0
  {
    if h >= h0 {
      assert (h - h0) % 180 == h - h0;
    } else {
      assert (h - h0) % 180 == h - h0 + 180;
    }
  }

  /** As written, the pure red pixel is rejected for the reference red, although the intended test accepts it. */
  lemma RedPixelRejected(cvt: Bgr -> Hsv)
    requires cvt(BgrColors["red"]).h == 0
    ensures var (lo, hi) := SelectBounds(BgrColors["red"], cvt);
      !Within(Hsv(0, 255, 255), lo, hi) && HueMatchesIntended(0, 0)
  {
    LowHueMatchesNothing(BgrColors["red"], cvt, Hsv(0, 255, 255));
  }

  /**
   * The loop body of main() for one frame, step by step: convert, threshold,
   * erode, dilate (reassigning the mask each time), scan for the box, then
   * apply the guard; returns what is drawn on the frame.
   */
  method HandleFrame(frame: seq<seq<Bgr>>, cvt: Bgr -> Hsv, lower: Hsv, upper: Hsv, args: Args)
    returns (drawn: Option<Annotation>)
    requires IsGrid(frame)
    ensures drawn == ProcessFrame(frame, cvt, lower, upper, args)
  {
    var hsvImg := CvtColor(frame, cvt);
    var mask := InRange(hsvImg, lower, upper);
    mask := Erode(mask);
    mask := Dilate(mask);
    assert mask == CleanMask(frame, cvt, lower, upper);
    var bbox := ScanBBox(mask);
    drawn := None;
    if bbox.Some? {
      var b := bbox.value;
      var area := Area(b);
      if ShouldDraw(area, args) {
        drawn := Some(Annotate(b));
      }
    }
  }

  /** A quit key: `waitKey(1) & 0xFF` is 27 (Esc) or 'q'; a negative "no key" becomes 255. */
  predicate IsQuitKey(key: int)
    ensures 0 <= key < 256 ==> (IsQuitKey(key) <==> key == 27 || key == 113)
    ensures key == -1 ==> !IsQuitKey(key)
  {
    key % 256 == 27 || key % 256 == 'q' as int
  }

  /** One iteration's input: the frame cap.read() delivered and the value waitKey(1) returned. */
  datatype Tick = Tick(frame: seq<seq<Bgr>>, key: int)

  /** The outcome `f` gives each of `ticks`' frames, in order, ignoring keys. */
  function MapFrames(ticks: seq<Tick>, f: seq<seq<Bgr>> -> Option<Annotation>): (r: seq<Option<Annotation>>)
    ensures |r| == |ticks|
  {
    seq(|ticks|, i requires 0 <= i < |ticks| => f(ticks[i].frame))
  }

  /** What the frame loop draws on each of `ticks`' frames, in order, ignoring keys. */
  function ProcessAll(ticks: seq<Tick>, cvt: Bgr -> Hsv, lower: Hsv, upper: Hsv, args: Args): (r: seq<Option<Annotation>>)
    ensures |r| == |ticks|
    ensures forall i :: 0 <= i < |ticks| ==> r[i] == ProcessFrame(ticks[i].frame, cvt, lower, upper, args)
  {
    MapFrames(ticks, frame => ProcessFrame(frame, cvt, lower, upper, args))
  }

  /** The number of frames the loop processes: up to and including the first quit key, else all. */
  function FramesProcessed(ticks: seq<Tick>): (n: nat)
    ensures n <= |ticks|
    ensures forall i :: 0 <= i < n - 1 ==> !IsQuitKey(ticks[i].key)
    ensures n == |ticks| || (0 < n && IsQuitKey(ticks[n - 1].key))
  {
    if ticks == [] then 0
    else if IsQuitKey(ticks[0].key) then 1
    else 1 + FramesProcessed(ticks[1..])
  }

  /** Mapping one more frame appends its outcome. */
  lemma MapFramesExtend(ticks: seq<Tick>, i: nat, f: seq<seq<Bgr>> -> Option<Annotation>)
    requires i < |ticks|
    ensures MapFrames(ticks[..i + 1], f) == MapFrames(ticks[..i], f) + [f(ticks[i].frame)]
  {
    assert ticks[..i + 1][..i] == ticks[..i];
  }

  /** Processing one more frame appends its outcome. */
  lemma ProcessAllExtend(ticks: seq<Tick>, i: nat, cvt: Bgr -> Hsv, lower: Hsv, upper: Hsv, args: Args)
    requires i < |ticks|
    ensures ProcessAll(ticks[..i + 1], cvt, lower, upper, args)
      == ProcessAll(ticks[..i], cvt, lower, upper, args) + [ProcessFrame(ticks[i].frame, cvt, lower, upper, args)]
  {
    MapFramesExtend(ticks, i, frame => ProcessFrame(frame, cvt, lower, upper, args));
  }

  /** A quit key at frame i, with no quit key before it, ends the loop after frame i. */
  lemma FramesProcessedStops(ticks: seq<Tick>, i: nat)
    requires i < |ticks| && IsQuitKey(ticks[i].key)
    requires FramesProcessed(ticks) == i + FramesProcessed(ticks[i..])
    ensures FramesProcessed(ticks) == i + 1
  {
  }

  /** Without a quit key at frame i, the loop goes on to the frames after it. */
  lemma FramesProcessedContinues(ticks: seq<Tick>, i: nat)
    requires i < |ticks| && !IsQuitKey(ticks[i].key)
    requires FramesProcessed(ticks) == i + FramesProcessed(ticks[i..])
    ensures FramesProcessed(ticks) == i + 1 + FramesProcessed(ticks[i + 1..])
  {
    assert ticks[i..][1..] == ticks[i + 1..];
  }

  /**
   * The `while cap.isOpened()` loop of main(): process frames until the stream
   * ends (the ticks run out) or a quit key is read; returns what was drawn on
   * each processed frame.
   */
  method RunFrames(ticks: seq<Tick>, cvt: Bgr -> Hsv, lower: Hsv, upper: Hsv, args: Args)
    returns (shown: seq<Option<Annotation>>)
    requires forall i :: 0 <= i < |ticks| ==> IsGrid(ticks[i].frame)
    ensures shown == ProcessAll(ticks[..FramesProcessed(ticks)], cvt, lower, upper, args)
  {
    shown := [];
    var i := 0;
    while i < |ticks|
      invariant 0 <= i <= |ticks|
      invariant shown == ProcessAll(ticks[..i], cvt, lower, upper, args)
      invariant FramesProcessed(ticks) == i + FramesProcessed(ticks[i..])
    {
      var drawn := HandleFrame(ticks[i].frame, cvt, lower, upper, args);
      ProcessAllExtend(ticks, i, cvt, lower, upper, args);
      shown := shown + [drawn];
      if IsQuitKey(ticks[i].key) {
        FramesProcessedStops(ticks, i);
        break;
      }
      FramesProcessedContinues(ticks, i);
      i := i + 1;
    }
  }

  /**
   * main() after argument parsing: check the colour name before anything else,
   * open the camera, resolve the bounds once, then run the frame loop.
   */
  method RunSession(colorName: string, args: Args, cameraOpened: bool, ticks: seq<Tick>, cvt: Bgr -> Hsv)
    returns (r: Result<seq<Option<Annotation>>, SessionError>)
    requires forall i :: 0 <= i < |ticks| ==> IsGrid(ticks[i].frame)
    ensures colorName !in ColorKeys ==> r == Err(UnknownColor(colorName, ColorKeys))
    ensures colorName in ColorKeys && !cameraOpened ==> r == Err(CameraNotOpened)
    ensures colorName in ColorKeys && cameraOpened ==> r.Ok?
    ensures r.Ok? ==> colorName in BgrColors && var (lo, hi) := SelectBounds(BgrColors[colorName], cvt);
      r.value == ProcessAll(ticks[..FramesProcessed(ticks)], cvt, lo, hi, args)
  {
    var selected := LookupColor(colorName);
    if selected.Err? {
      return Err(selected.error);
    }
    if !cameraOpened {
      return Err(CameraNotOpened);
    }
    var bounds := GetBoundBoxByColor(selected.value, cvt);
    var lower, upper := bounds.lowerList[0], bounds.upperList[0];
    var shown := RunFrames(ticks, cvt, lower, upper, args);
    r := Ok(shown);
  }
}
