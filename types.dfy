/**
 * Values shared by every stage of the colour spotter: 8-bit channel values,
 * the two pixel encodings, boxes, rectangular grids and the result wrappers.
 */
module Types {

  /** An unsigned 8-bit value, as numpy's `uint8` and OpenCV's 8-bit images hold. */
  type Byte = x: int | 0 <= x < 256

  /** A pixel of a camera frame or a reference colour, in OpenCV's blue-green-red order. */
  datatype Bgr = Bgr(b: Byte, g: Byte, r: Byte)

  /** A pixel in OpenCV's 8-bit hue-saturation-value encoding (OpenCV produces hue 0..179). */
  datatype Hsv = Hsv(h: Byte, s: Byte, v: Byte)

  datatype Option<T> = None | Some(value: T)

  datatype Result<T, E> = Ok(value: T) | Err(error: E)

  /** A box as Pillow's getbbox returns it: (x1, y1) inclusive, (x2, y2) exclusive. */
  datatype Box = Box(x1: int, y1: int, x2: int, y2: int)

  /** Cell (x, y) lies inside box `b`. */
  predicate Encloses(b: Box, x: int, y: int)
  {
    b.x1 <= x < b.x2 && b.y1 <= y < b.y2
  }

  /** Every row of `g` is as long as the first one (numpy images are rectangular). */
  predicate IsGrid<T>(g: seq<seq<T>>)
  {
    forall y :: 0 <= y < |g| ==> |g[y]| == |g[0]|
  }

  /** Number of columns of a grid. */
  function Width<T>(g: seq<seq<T>>): nat
  {
    if |g| == 0 then 0 else |g[0]|
  }

  /** Two grids with the same number of rows and, row by row, the same number of cells. */
  predicate SameShape<S, T>(a: seq<seq<S>>, b: seq<seq<T>>)
  {
    |a| == |b| && forall y :: 0 <= y < |a| ==> |a[y]| == |b[y]|
  }

  /** The mask `m` is set exactly on the cells of box `b`. */
  predicate IsRectMask(m: seq<seq<bool>>, b: Box)
  {
    forall y, x :: 0 <= y < |m| && 0 <= x < |m[y]| ==> (m[y][x] <==> Encloses(b, x, y))
  }

  /** Box `b` is non-empty and lies within the grid `m`. */
  predicate FitsIn<T>(b: Box, m: seq<seq<T>>)
  {
    0 <= b.x1 < b.x2 <= Width(m) && 0 <= b.y1 < b.y2 <= |m|
  }
}
