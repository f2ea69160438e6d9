/**
 * The OpenCV image operations main.py applies to every frame: the colour
 * conversion, `cv2.inRange` thresholding, and one 3x3 erosion followed by one
 * 3x3 dilation (the default kernel when `None` is passed, with the default
 * constant border, so cells outside the image neither erode nor dilate).
 * Masks are grids of booleans; OpenCV's 0/255 bytes become false/true.
 */
module Segmentation {
  import opened Types

  /** cv2.cvtColor on a frame: the per-pixel conversion `cvt` applied to every pixel. */
  function CvtColor(frame: seq<seq<Bgr>>, cvt: Bgr -> Hsv): (img: seq<seq<Hsv>>)
    ensures SameShape(img, frame)
    ensures forall y, x :: 0 <= y < |frame| && 0 <= x < |frame[y]| ==> img[y][x] == cvt(frame[y][x])
  {
    seq(|frame|, y requires 0 <= y < |frame| =>
      seq(|frame[y]|, x requires 0 <= x < |frame[y]| => cvt(frame[y][x])))
  }

  /** Pixel `p` lies within [lo, hi], inclusively and channel by channel. */
  predicate Within(p: Hsv, lo: Hsv, hi: Hsv)
  {
    lo.h <= p.h <= hi.h && lo.s <= p.s <= hi.s && lo.v <= p.v <= hi.v
  }

  /** cv2.inRange: a mask of the image's shape, set where the pixel is within [lo, hi]. */
  function InRange(img: seq<seq<Hsv>>, lo: Hsv, hi: Hsv): (mask: seq<seq<bool>>)
    ensures SameShape(mask, img)
    ensures forall y, x :: 0 <= y < |img| && 0 <= x < |img[y]| ==> (mask[y][x] <==> Within(img[y][x], lo, hi))
  {
    seq(|img|, y requires 0 <= y < |img| =>
      seq(|img[y]|, x requires 0 <= x < |img[y]| => Within(img[y][x], lo, hi)))
  }

  /** The mask cell at (y, x), or `outside` for a position beyond the image (the border value). */
  function At(m: seq<seq<bool>>, y: int, x: int, outside: bool): bool
  {
    if 0 <= y < |m| && 0 <= x < |m[y]| then m[y][x] else outside
  }

  /** Erosion at (y, x): every cell of the 3x3 neighbourhood is set; the border counts as set. */
  predicate ErodedAt(m: seq<seq<bool>>, y: int, x: int)
  {
    forall ny, nx | y - 1 <= ny <= y + 1 && x - 1 <= nx <= x + 1 :: At(m, ny, nx, true)
  }

  /** Dilation at (y, x): some cell of the 3x3 neighbourhood is set; the border counts as clear. */
  predicate DilatedAt(m: seq<seq<bool>>, y: int, x: int)
  {
    exists ny, nx | y - 1 <= ny <= y + 1 && x - 1 <= nx <= x + 1 :: At(m, ny, nx, false)
  }

  /** cv2.erode(mask, None, iterations=1). */
  function Erode(m: seq<seq<bool>>): (r: seq<seq<bool>>)
    ensures SameShape(r, m)
  {
    seq(|m|, y requires 0 <= y < |m| => seq(|m[y]|, x => ErodedAt(m, y, x)))
  }

  /** cv2.dilate(mask, None, iterations=1). */
  function Dilate(m: seq<seq<bool>>): (r: seq<seq<bool>>)
    ensures SameShape(r, m)
  {
    seq(|m|, y requires 0 <= y < |m| => seq(|m[y]|, x => DilatedAt(m, y, x)))
  }

  /** Erosion only clears cells: an eroded cell was set in the input. */
  lemma ErodeShrinks(m: seq<seq<bool>>)
    ensures forall y, x :: 0 <= y < |m| && 0 <= x < |m[y]| && Erode(m)[y][x] ==> m[y][x]
  {
    forall y, x | 0 <= y < |m| && 0 <= x < |m[y]| && Erode(m)[y][x]
      ensures m[y][x]
    {
      assert ErodedAt(m, y, x);
      assert At(m, y, x, true);
    }
  }

  /** Dilation only sets cells: a set input cell stays set. */
  lemma DilateGrows(m: seq<seq<bool>>)
    ensures forall y, x :: 0 <= y < |m| && 0 <= x < |m[y]| && m[y][x] ==> Dilate(m)[y][x]
  {
    forall y, x | 0 <= y < |m| && 0 <= x < |m[y]| && m[y][x]
      ensures Dilate(m)[y][x]
    {
      assert At(m, y, x, false);
    }
  }

  /** Erode-then-dilate never sets a cell that was clear: the cleaned mask is a subset of the input. */
  lemma OpeningShrinks(m: seq<seq<bool>>)
    ensures SameShape(Dilate(Erode(m)), m)
    ensures forall y, x :: 0 <= y < |m| && 0 <= x < |m[y]| && Dilate(Erode(m))[y][x] ==> m[y][x]
  {
    var e := Erode(m);
    forall y, x | 0 <= y < |m| && 0 <= x < |m[y]| && Dilate(e)[y][x]
      ensures m[y][x]
    {
      assert DilatedAt(e, y, x);
      var ny, nx :| y - 1 <= ny <= y + 1 && x - 1 <= nx <= x + 1 && At(e, ny, nx, false);
      assert ErodedAt(m, ny, nx);
      assert At(m, y, x, true);
    }
  }

  /**
   * In an image of more than one cell, a cell none of whose 8 neighbours is set
   * is clear after erode-then-dilate: isolated pixels are removed.
   */
  lemma OpeningClearsIsolated(m: seq<seq<bool>>, y: int, x: int)
    requires IsGrid(m) && 0 <= y < |m| && 0 <= x < |m[y]|
    requires |m| > 1 || |m[0]| > 1
    requires forall ny, nx | y - 1 <= ny <= y + 1 && x - 1 <= nx <= x + 1 && !(ny == y && nx == x) ::
      !At(m, ny, nx, false)
    ensures !Dilate(Erode(m))[y][x]
  {
    var e := Erode(m);
    // a neighbour of (y, x) inside the image; it is clear
    var oy, ox := if |m| > 1 then (if y > 0 then y - 1 else y + 1) else y,
                  if |m| > 1 then x else (if x > 0 then x - 1 else x + 1);
    assert 0 <= oy < |m| && 0 <= ox < |m[oy]| && !m[oy][ox] by {
      assert !At(m, oy, ox, false);
    }
    forall ny, nx | y - 1 <= ny <= y + 1 && x - 1 <= nx <= x + 1
      ensures !At(e, ny, nx, false)
    {
      if 0 <= ny < |m| && 0 <= nx < |m[ny]| {
        if ny == y && nx == x {
          assert !At(m, oy, ox, true);
        } else {
          assert !At(m, ny, nx, false);
          assert !At(m, ny, nx, true);
        }
        assert !ErodedAt(m, ny, nx);
      }
    }
    assert !DilatedAt(e, y, x);
  }

  /**
   * A solid rectangle of at least 3x3 cells inside the image survives
   * erode-then-dilate unchanged: genuine regions keep their shape and extent.
   */
  lemma OpeningKeepsSolidRectangle(m: seq<seq<bool>>, b: Box)
    requires IsGrid(m) && FitsIn(b, m) && IsRectMask(m, b)
    requires b.x2 - b.x1 >= 3 && b.y2 - b.y1 >= 3
    ensures Dilate(Erode(m)) == m
  {
    var e := Erode(m);
    var d := Dilate(e);
    OpeningShrinks(m);
    forall y | 0 <= y < |m|
      ensures d[y] == m[y]
    {
      forall x | 0 <= x < |m[y]|
        ensures d[y][x] == m[y][x]
      {
        if m[y][x] {
          assert Encloses(b, x, y);
          // the nearest cell of the rectangle's interior
          var cy := if y < b.y1 + 1 then b.y1 + 1 else if y > b.y2 - 2 then b.y2 - 2 else y;
          var cx := if x < b.x1 + 1 then b.x1 + 1 else if x > b.x2 - 2 then b.x2 - 2 else x;
          forall ny, nx | cy - 1 <= ny <= cy + 1 && cx - 1 <= nx <= cx + 1
            ensures At(m, ny, nx, true)
          {
            assert Encloses(b, nx, ny);
          }
          assert ErodedAt(m, cy, cx);
          assert At(e, cy, cx, false);
          assert DilatedAt(e, y, x);
        }
      }
    }
  }
}
