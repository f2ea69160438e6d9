/**
 * ObjectDetector.get_bound_box_by_color: the HSV threshold pair built from a
 * reference colour. The hue is shifted by 10 either way in numpy `uint8`
 * arithmetic, so it wraps modulo 256; saturation and value are fixed at 100..255.
 * The BGR-to-HSV conversion (cv2.cvtColor) is OpenCV's and is a parameter here.
 */
module ObjectDetector {
  import opened Types

  /** Hue tolerance either side of the reference hue. */
  const HueTolerance: Byte := 10
  /** Lower bound of saturation and value. */
  const MinSatVal: Byte := 100
  /** Upper bound of saturation and value. */
  const MaxSatVal: Byte := 255

  /** numpy `uint8` subtraction: the difference, wrapped into 0..255. */
  function U8Sub(a: Byte, k: Byte): (r: Byte)
    ensures r == a - k || r == a - k + 256
  {
    (a - k) % 256
  }

  /** numpy `uint8` addition: the sum, wrapped into 0..255. */
  function U8Add(a: Byte, k: Byte): (r: Byte)
    ensures r == a + k || r == a + k - 256
  {
    (a + k) % 256
  }

  /** Adding back what was subtracted restores the byte, wrap-around included. */
  lemma U8SubAddRoundTrip(a: Byte, k: Byte)
    ensures U8Add(U8Sub(a, k), k) == a
    ensures U8Sub(U8Add(a, k), k) == a
  {
  }

  /** The two one-element lists the method returns: `[lower_bound], [upper_bound]`. */
  datatype BoundLists = BoundLists(lowerList: seq<Hsv>, upperList: seq<Hsv>)

  /**
   * get_bound_box_by_color(color): converts `color` with `cvtColor`, keeps its hue,
   * and builds the lower and upper threshold triples.
   */
  function GetBoundBoxByColor(color: Bgr, cvtColor: Bgr -> Hsv): (r: BoundLists)
    ensures |r.lowerList| == 1 && |r.upperList| == 1
    ensures r.lowerList[0].s == MinSatVal && r.lowerList[0].v == MinSatVal
    ensures r.upperList[0].s == MaxSatVal && r.upperList[0].v == MaxSatVal
    ensures U8Add(r.lowerList[0].h, HueTolerance) == cvtColor(color).h
    ensures U8Sub(r.upperList[0].h, HueTolerance) == cvtColor(color).h
  {
    var hue := cvtColor(color).h;
    U8SubAddRoundTrip(hue, HueTolerance);
    BoundLists([Hsv(U8Sub(hue, HueTolerance), MinSatVal, MinSatVal)],
               [Hsv(U8Add(hue, HueTolerance), MaxSatVal, MaxSatVal)])
  }

  /** Only the converted hue matters: colours of equal hue get identical bounds. */
  lemma BoundsDependOnlyOnHue(c1: Bgr, c2: Bgr, cvtColor: Bgr -> Hsv)
    requires cvtColor(c1).h == cvtColor(c2).h
    ensures GetBoundBoxByColor(c1, cvtColor) == GetBoundBoxByColor(c2, cvtColor)
  {
  }

  /** The hue bytes wrap modulo 256 (not 180): below 10 the lower bound lands in 246..255. */
  lemma HueBoundsWrapModulo256(color: Bgr, cvtColor: Bgr -> Hsv)
    ensures var hue, r := cvtColor(color).h, GetBoundBoxByColor(color, cvtColor);
      && r.lowerList[0].h == (if hue >= 10 then hue - 10 else hue + 246)
      && r.upperList[0].h == (if hue < 246 then hue + 10 else hue - 246)
  {
  }

  /** For an OpenCV hue of 10..179 the bounds form the window hue - 10 .. hue + 10. */
  lemma MidHueWindow(color: Bgr, cvtColor: Bgr -> Hsv)
    requires 10 <= cvtColor(color).h <= 179
    ensures var hue, r := cvtColor(color).h, GetBoundBoxByColor(color, cvtColor);
      && r.lowerList[0].h <= hue <= r.upperList[0].h
      && r.upperList[0].h - r.lowerList[0].h == 20
  {
    HueBoundsWrapModulo256(color, cvtColor);
  }

  /** For a hue below 10 the lower hue byte wraps to 246..255 and exceeds the upper one. */
  lemma LowHueInvertsBounds(color: Bgr, cvtColor: Bgr -> Hsv)
    requires cvtColor(color).h < 10
    ensures var r := GetBoundBoxByColor(color, cvtColor);
      && 246 <= r.lowerList[0].h
      && r.upperList[0].h < r.lowerList[0].h
  {
    HueBoundsWrapModulo256(color, cvtColor);
  }
}
