/**
 * Pillow's Image.getbbox on a mask: the tightest box around the set cells,
 * with (x1, y1) inclusive and (x2, y2) exclusive, or None for an empty mask.
 * ScanRow and ScanRows state the row-by-row running extrema as functions;
 * ScanBBox is the loop itself, keeping four integers, proved equal to them.
 */
module BoundingBox {
  import opened Types

  function Min(a: int, b: int): int { if a <= b then a else b }

  function Max(a: int, b: int): int { if a <= b then b else a }

  /** The box of the single cell (x, y). */
  function CellBox(x: int, y: int): Box
  {
    Box(x, y, x + 1, y + 1)
  }

  /** The smallest box holding both arguments; an absent argument contributes nothing. */
  function Hull(a: Option<Box>, c: Option<Box>): Option<Box>
  {
    match a
    case None => c
    case Some(p) =>
      match c
      case None => a
      case Some(q) => Some(Box(Min(p.x1, q.x1), Min(p.y1, q.y1), Max(p.x2, q.x2), Max(p.y2, q.y2)))
  }

  lemma HullAssociative(a: Option<Box>, b: Option<Box>, c: Option<Box>)
    ensures Hull(a, Hull(b, c)) == Hull(Hull(a, b), c)
  {
  }

  /** Cell (x, y) exists in `m` and is set. */
  predicate IsSet(m: seq<seq<bool>>, y: int, x: int)
  {
    0 <= y < |m| && 0 <= x < |m[y]| && m[y][x]
  }

  /** Row `y` of `m` holds a set cell. */
  ghost predicate RowHasSet(m: seq<seq<bool>>, y: int)
  {
    exists x :: IsSet(m, y, x)
  }

  /** Column `x` of `m` holds a set cell. */
  ghost predicate ColumnHasSet(m: seq<seq<bool>>, x: int)
  {
    exists y :: IsSet(m, y, x)
  }

  /** Each of the four edges of `b` passes through a set cell of `m`. */
  ghost predicate TouchesEdges(m: seq<seq<bool>>, b: Box)
  {
    RowHasSet(m, b.y1) && RowHasSet(m, b.y2 - 1) && ColumnHasSet(m, b.x1) && ColumnHasSet(m, b.x2 - 1)
  }

  /** The box of the set cells among the first `n` cells of row `y`. */
  function ScanRow(row: seq<bool>, y: int, n: nat): (r: Option<Box>)
    requires n <= |row|
    ensures r.None? <==> forall x :: 0 <= x < n ==> !row[x]
    ensures r.Some? ==> r.value.y1 == y && r.value.y2 == y + 1
    ensures r.Some? ==> 0 <= r.value.x1 < r.value.x2 <= n && row[r.value.x1] && row[r.value.x2 - 1]
    ensures r.Some? ==> forall x :: 0 <= x < n && row[x] ==> r.value.x1 <= x < r.value.x2
  {
    if n == 0 then None
    else Hull(ScanRow(row, y, n - 1), if row[n - 1] then Some(CellBox(n - 1, y)) else None)
  }

  /** The box of the set cells in the first `k` rows of `m`. */
  function ScanRows(m: seq<seq<bool>>, k: nat): (r: Option<Box>)
    requires k <= |m|
    ensures r.None? <==> forall y, x :: 0 <= y < k && 0 <= x < |m[y]| ==> !m[y][x]
    ensures r.Some? ==> 0 <= r.value.x1 < r.value.x2 && 0 <= r.value.y1 < r.value.y2 <= k
    ensures r.Some? ==> forall y, x :: 0 <= y < k && 0 <= x < |m[y]| && m[y][x] ==> Encloses(r.value, x, y)
  {
    if k == 0 then None
    else Hull(ScanRows(m, k - 1), ScanRow(m[k - 1], k - 1, |m[k - 1]|))
  }

  /** Image.getbbox(): None exactly for a mask without a set cell, else a box around every set cell. */
  function GetBBox(m: seq<seq<bool>>): (r: Option<Box>)
    ensures r.None? <==> forall y, x :: 0 <= y < |m| && 0 <= x < |m[y]| ==> !m[y][x]
    ensures r.Some? ==> 0 <= r.value.x1 < r.value.x2 && 0 <= r.value.y1 < r.value.y2 <= |m|
    ensures r.Some? ==> forall y, x :: 0 <= y < |m| && 0 <= x < |m[y]| && m[y][x] ==> Encloses(r.value, x, y)
  {
    ScanRows(m, |m|)
  }

  /** The hull of two boxes whose edges each pass through a set cell has edges that do too. */
  lemma HullTouchesEdges(m: seq<seq<bool>>, p: Box, q: Box)
    requires TouchesEdges(m, p) && TouchesEdges(m, q)
    ensures TouchesEdges(m, Hull(Some(p), Some(q)).value)
  {
    var b := Hull(Some(p), Some(q)).value;
    assert b.y1 == p.y1 || b.y1 == q.y1;
    assert b.y2 == p.y2 || b.y2 == q.y2;
    assert b.x1 == p.x1 || b.x1 == q.x1;
    assert b.x2 == p.x2 || b.x2 == q.x2;
  }

  /** The rows scanned so far each touch an edge of their running box. */
  lemma {:induction false} ScanRowsTouchesEdges(m: seq<seq<bool>>, k: nat)
    requires k <= |m| && ScanRows(m, k).Some?
    ensures TouchesEdges(m, ScanRows(m, k).value)
  {
    var p := ScanRows(m, k - 1);
    var q := ScanRow(m[k - 1], k - 1, |m[k - 1]|);
    if p.Some? {
      ScanRowsTouchesEdges(m, k - 1);
    }
    if q.Some? {
      assert IsSet(m, k - 1, q.value.x1) && IsSet(m, k - 1, q.value.x2 - 1);
      assert RowHasSet(m, k - 1) && ColumnHasSet(m, q.value.x1) && ColumnHasSet(m, q.value.x2 - 1);
    }
    if p.Some? && q.Some? {
      HullTouchesEdges(m, p.value, q.value);
    }
  }

  /** The box is tight: each of its four edges passes through a set cell. */
  lemma BBoxTouchesEdges(m: seq<seq<bool>>)
    requires GetBBox(m).Some?
    ensures TouchesEdges(m, GetBBox(m).value)
    ensures IsGrid(m) ==> GetBBox(m).value.x2 <= Width(m)
  {
    ScanRowsTouchesEdges(m, |m|);
    var b := GetBBox(m).value;
    assert ColumnHasSet(m, b.x2 - 1);
    var y :| IsSet(m, y, b.x2 - 1);
  }

  /** A mask set exactly on a non-empty rectangle inside it has that rectangle as its box. */
  lemma BBoxOfSolidRectangle(m: seq<seq<bool>>, b: Box)
    requires IsGrid(m) && FitsIn(b, m) && IsRectMask(m, b)
    ensures GetBBox(m) == Some(b)
  {
    assert m[b.y1][b.x1] && m[b.y2 - 1][b.x2 - 1];
    BBoxTouchesEdges(m);
    var r := GetBBox(m).value;
    assert TouchesEdges(m, r);
    assert RowHasSet(m, r.y1) && RowHasSet(m, r.y2 - 1);
    assert ColumnHasSet(m, r.x1) && ColumnHasSet(m, r.x2 - 1);
    var x1 :| IsSet(m, r.y1, x1);
    var x2 :| IsSet(m, r.y2 - 1, x2);
    var y1 :| IsSet(m, y1, r.x1);
    var y2 :| IsSet(m, y2, r.x2 - 1);
    assert Encloses(b, x1, r.y1) && Encloses(b, x2, r.y2 - 1);
    assert Encloses(b, r.x1, y1) && Encloses(b, r.x2 - 1, y2);
    assert Encloses(r, b.x1, b.y1) && Encloses(r, b.x2 - 1, b.y2 - 1);
  }

  /** The x-extent of the running box, or Pillow's initial (width, 0) while there is none. */
  predicate XExtent(o: Option<Box>, x0: int, x1: int, w: int)
  {
    match o
    case None => x0 == w && x1 == 0
    case Some(b) => x0 == b.x1 && x1 == b.x2
  }

  /** The y-extent of the running box, or Pillow's initial (-1, 0) while there is none. */
  predicate YExtent(o: Option<Box>, y0: int, y1: int)
  {
    match o
    case None => y0 == -1 && y1 == 0
    case Some(b) => y0 == b.y1 && y1 == b.y2
  }

  /**
   * Taking in cell x of row y moves the x-extent the way the scan's two
   * comparisons do, and the row holds a set cell once this one is.
   */
  lemma CellStep(row: seq<bool>, y: int, x: nat, done: Option<Box>, x0: int, x1: int)
    requires x < |row| && XExtent(Hull(done, ScanRow(row, y, x)), x0, x1, |row|)
    ensures ScanRow(row, y, x + 1).Some? <==> ScanRow(row, y, x).Some? || row[x]
    ensures XExtent(Hull(done, ScanRow(row, y, x + 1)),
                    if row[x] && x < x0 then x else x0, if row[x] && x >= x1 then x + 1 else x1, |row|)
  {
    HullAssociative(done, ScanRow(row, y, x), if row[x] then Some(CellBox(x, y)) else None);
  }

  /**
   * Taking in row y, whose row scan left the x-extent at (x0, x1), gives the
   * box of the first y + 1 rows; the y-extent moves the way the scan does
   * after each row.
   */
  lemma RowStep(m: seq<seq<bool>>, y: nat, w: int, x0: int, x1: int, y0: int, y1: int)
    requires y < |m| && w == |m[y]|
    requires XExtent(Hull(ScanRows(m, y), ScanRow(m[y], y, w)), x0, x1, w)
    requires YExtent(ScanRows(m, y), y0, y1)
    ensures XExtent(ScanRows(m, y + 1), x0, x1, w)
    ensures var q := ScanRow(m[y], y, w);
      YExtent(ScanRows(m, y + 1), if q.Some? && y0 < 0 then y else y0, if q.Some? then y + 1 else y1)
  {
  }

  /**
   * One row of the scan: walks the cells of row `y` left to right, widening the
   * x-extent (x0, x1) of the rows before it, whose box is `done`, and reports
   * whether the row holds a set cell.
   */
  method ScanRowExtent(row: seq<bool>, y: int, ghost done: Option<Box>, x0: int, x1: int)
    returns (hasData: bool, nx0: int, nx1: int)
    requires XExtent(done, x0, x1, |row|)
    ensures hasData <==> ScanRow(row, y, |row|).Some?
    ensures XExtent(Hull(done, ScanRow(row, y, |row|)), nx0, nx1, |row|)
  {
    var w := |row|;
    hasData, nx0, nx1 := false, x0, x1;
    var x := 0;
    while x < w
      invariant 0 <= x <= w
      invariant hasData <==> ScanRow(row, y, x).Some?
      invariant XExtent(Hull(done, ScanRow(row, y, x)), nx0, nx1, w)
    {
      CellStep(row, y, x, done, nx0, nx1);
      if row[x] {
        hasData := true;
        if x < nx0 {
          nx0 := x;
        }
        if x >= nx1 {
          nx1 := x + 1;
        }
      }
      x := x + 1;
    }
  }

  /**
   * The scan Pillow's getbbox performs: row by row, keeping the smallest and
   * largest columns and rows of set cells seen so far.
   */
  method ScanBBox(m: seq<seq<bool>>) returns (r: Option<Box>)
    requires IsGrid(m)
    ensures r == GetBBox(m)
  {
    var h := |m|;
    var w := Width(m);
    var x0, y0, x1, y1 := w, -1, 0, 0;
    var y := 0;
    while y < h
      invariant 0 <= y <= h
      invariant XExtent(ScanRows(m, y), x0, x1, w)
      invariant YExtent(ScanRows(m, y), y0, y1)
    {
      assert |m[y]| == w;
      var hasData;
      hasData, x0, x1 := ScanRowExtent(m[y], y, ScanRows(m, y), x0, x1);
      RowStep(m, y, w, x0, x1, y0, y1);
      if hasData {
        if y0 < 0 {
          y0 := y;
        }
        y1 := y + 1;
      }
      y := y + 1;
    }
    if y0 < 0 {
      r := None;
    } else {
      r := Some(Box(x0, y0, x1, y1));
    }
  }
}
