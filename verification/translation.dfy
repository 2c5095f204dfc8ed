/**
 * How the scanline pass behaves when the polygon is moved: scanlines and
 * crossings move with it, and a whole-pixel move across shifts every visited
 * column by the same amount. This is what relates the textured rectangle,
 * which scans the untranslated corners and adds `(x1, y1)` at write time, to
 * the plain rectangle, which scans the translated corners.
 */
module Translation {
  import opened Numeric
  import opened Geometry
  import opened Scanline

  function ShiftReals(xs: seq<real>, d: real): (r: seq<real>)
    ensures |r| == |xs| && forall k :: 0 <= k < |xs| ==> r[k] == xs[k] + d
  {
    seq(|xs|, k requires 0 <= k < |xs| => xs[k] + d)
  }

  function ShiftInts(xs: seq<int>, d: int): (r: seq<int>)
    ensures |r| == |xs| && forall k :: 0 <= k < |xs| ==> r[k] == xs[k] + d
  {
    seq(|xs|, k requires 0 <= k < |xs| => xs[k] + d)
  }

  function ShiftCells(cs: seq<Cell>, dx: int, dy: real): (r: seq<Cell>)
    ensures |r| == |cs| && forall k :: 0 <= k < |cs| ==> r[k] == Cell(cs[k].x + dx, cs[k].y + dy)
  {
    seq(|cs|, k requires 0 <= k < |cs| => Cell(cs[k].x + dx, cs[k].y + dy))
  }

  /** A lower bound of a list that the list attains is its least element. */
  lemma LoUnique(vs: seq<real>, m: real)
    requires |vs| > 0
    requires forall i :: 0 <= i < |vs| ==> m <= vs[i]
    requires exists i :: 0 <= i < |vs| && vs[i] == m
    ensures Lo(vs) == m
  {
  }

  lemma HiUnique(vs: seq<real>, m: real)
    requires |vs| > 0
    requires forall i :: 0 <= i < |vs| ==> vs[i] <= m
    requires exists i :: 0 <= i < |vs| && vs[i] == m
    ensures Hi(vs) == m
  {
  }

  /** Moving the points by `dy` moves `minY` and `maxY` by `dy`. */
  lemma BoundsShift(pts: seq<Point>, dx: real, dy: real)
    requires |pts| > 0
    ensures MinY(Translate(pts, dx, dy)) == MinY(pts) + dy
    ensures MaxY(Translate(pts, dx, dy)) == MaxY(pts) + dy
  {
    var ys, zs := Ys(pts), Ys(Translate(pts, dx, dy));
    assert forall i :: 0 <= i < |zs| ==> zs[i] == ys[i] + dy;
    var lo, hi := Lo(ys), Hi(ys);
    var i :| 0 <= i < |ys| && ys[i] == lo;
    var j :| 0 <= j < |ys| && ys[j] == hi;
    assert zs[i] == lo + dy && zs[j] == hi + dy;
    LoUnique(zs, lo + dy);
    HiUnique(zs, hi + dy);
  }

  /** Moving an edge and the scanline together keeps the crossing test and moves the crossing across by `dx`. */
  lemma CrossShift(p: Point, q: Point, y: real, dx: real, dy: real)
    ensures Crosses(Point(p.x + dx, p.y + dy), Point(q.x + dx, q.y + dy), y + dy) == Crosses(p, q, y)
    ensures Crosses(p, q, y) ==>
      CrossX(Point(p.x + dx, p.y + dy), Point(q.x + dx, q.y + dy), y + dy) == CrossX(p, q, y) + dx
  {
    if Crosses(p, q, y) {
      assert (y + dy) - (p.y + dy) == y - p.y;
      assert (q.x + dx) - (p.x + dx) == q.x - p.x;
      assert (q.y + dy) - (p.y + dy) == q.y - p.y;
    }
  }

  lemma {:induction false} EdgeCrossingsShift(pts: seq<Point>, y: real, dx: real, dy: real, n: nat)
    requires n <= |pts|
    ensures EdgeCrossings(Translate(pts, dx, dy), y + dy, n) == ShiftReals(EdgeCrossings(pts, y, n), dx)
    decreases n
  {
    if n > 0 {
      var moved := Translate(pts, dx, dy);
      EdgeCrossingsShift(pts, y, dx, dy, n - 1);
      var p, q := pts[n - 1], Next(pts, n - 1);
      assert moved[n - 1] == Point(p.x + dx, p.y + dy);
      assert Next(moved, n - 1) == Point(q.x + dx, q.y + dy);
      CrossShift(p, q, y, dx, dy);
      var before := EdgeCrossings(pts, y, n - 1);
      var last := if Crosses(p, q, y) then [CrossX(p, q, y)] else [];
      assert ShiftReals(before + last, dx) == ShiftReals(before, dx) + ShiftReals(last, dx);
    }
  }

  /** The crossings of the moved polygon with the moved scanline are the old crossings moved across by `dx`. */
  lemma CrossingsShift(pts: seq<Point>, y: real, dx: real, dy: real)
    ensures Crossings(Translate(pts, dx, dy), y + dy) == ShiftReals(Crossings(pts, y), dx)
  {
    EdgeCrossingsShift(pts, y, dx, dy, |pts|);
  }

  lemma {:induction false} InsertShift(x: real, xs: seq<real>, d: real)
    ensures Insert(x + d, ShiftReals(xs, d)) == ShiftReals(Insert(x, xs), d)
    decreases |xs|
  {
    var ys := ShiftReals(xs, d);
    if |xs| > 0 && x > xs[0] {
      InsertShift(x, xs[1..], d);
      assert ys[1..] == ShiftReals(xs[1..], d);
      assert ShiftReals([xs[0]] + Insert(x, xs[1..]), d) == [xs[0] + d] + ShiftReals(Insert(x, xs[1..]), d);
    } else {
      assert ShiftReals([x] + xs, d) == [x + d] + ys;
    }
  }

  /** Sorting commutes with adding the same amount to every element. */
  lemma {:induction false} SortShift(xs: seq<real>, d: real)
    ensures Sort(ShiftReals(xs, d)) == ShiftReals(Sort(xs), d)
    decreases |xs|
  {
    if |xs| > 0 {
      var ys := ShiftReals(xs, d);
      assert ys[1..] == ShiftReals(xs[1..], d);
      SortShift(xs[1..], d);
      InsertShift(xs[0], Sort(xs[1..]), d);
    }
  }

  lemma RangeShift(lo: int, hi: int, d: int)
    ensures Range(lo + d, hi + d) == ShiftInts(Range(lo, hi), d)
  {
  }

  lemma ShiftIntsAppend(a: seq<int>, b: seq<int>, d: int)
    ensures ShiftInts(a + b, d) == ShiftInts(a, d) + ShiftInts(b, d)
  {
  }

  /** Moving a pair of crossings across by a whole `d` moves the columns between them by `d`. */
  lemma SpanHeadShift(xs: seq<real>, d: int)
    requires |xs| >= 2
    ensures var ys := ShiftReals(xs, d as real);
      |ys| >= 2 && ys[2..] == ShiftReals(xs[2..], d as real) &&
      Range(Ceil(ys[0]), Floor(ys[1])) == ShiftInts(Range(Ceil(xs[0]), Floor(xs[1])), d)
  {
    var ys := ShiftReals(xs, d as real);
    assert ys[2..] == ShiftReals(xs[2..], d as real);
    assert Ceil(ys[0]) == Ceil(xs[0]) + d && Floor(ys[1]) == Floor(xs[1]) + d;
    RangeShift(Ceil(xs[0]), Floor(xs[1]), d);
  }

  /** Moving the crossings across by a whole `d` moves every span column by `d`. */
  lemma {:induction false} SpansShift(xs: seq<real>, d: int)
    ensures Spans(ShiftReals(xs, d as real)) == ShiftInts(Spans(xs), d)
    decreases |xs|
  {
    if |xs| >= 2 {
      SpanHeadShift(xs, d);
      SpansShift(xs[2..], d);
      ShiftIntsAppend(Range(Ceil(xs[0]), Floor(xs[1])), Spans(xs[2..]), d);
    }
  }

  /** A whole-pixel move across and any move down shifts each scanline's columns by the move across. */
  lemma RowColumnsShift(pts: seq<Point>, y: real, dx: int, dy: real)
    ensures RowColumns(Translate(pts, dx as real, dy), y + dy) == ShiftInts(RowColumns(pts, y), dx)
  {
    CrossingsShift(pts, y, dx as real, dy);
    SortShift(Crossings(pts, y), dx as real);
    SpansShift(Sort(Crossings(pts, y)), dx);
  }

  lemma ColumnsShift(row: seq<int>, y: real, dx: int, dy: real)
    ensures Columns(ShiftInts(row, dx), y + dy) == ShiftCells(Columns(row, y), dx, dy)
  {
  }

  lemma ShiftCellsAppend(a: seq<Cell>, b: seq<Cell>, dx: int, dy: real)
    ensures ShiftCells(a + b, dx, dy) == ShiftCells(a, dx, dy) + ShiftCells(b, dx, dy)
  {
  }

  /** Scanline `y + dy` of `cols2` holds the columns of scanline `y` of `cols` moved by `dx`, for every `y`. */
  ghost predicate RowsMoved(cols: real -> seq<int>, cols2: real -> seq<int>, dx: int, dy: real)
  {
    forall y :: cols2(y + dy) == ShiftInts(cols(y), dx)
  }

  /** Every scanline of the moved polygon holds the columns of the matching old scanline moved by `dx`. */
  lemma AllRowsShift(pts: seq<Point>, dx: int, dy: real)
    ensures RowsMoved(RowsOf(pts), RowsOf(Translate(pts, dx as real, dy)), dx, dy)
  {
    var moved := Translate(pts, dx as real, dy);
    forall y
      ensures RowsOf(moved)(y + dy) == ShiftInts(RowsOf(pts)(y), dx)
    {
      RowColumnsShift(pts, y, dx, dy);
      assert RowsOf(pts)(y) == RowColumns(pts, y);
      assert RowsOf(moved)(y + dy) == RowColumns(moved, y + dy);
    }
  }

  /** When every scanline `y + dy` of `cols2` is scanline `y` of `cols` moved by `dx`, the sweeps are moved copies. */
  lemma {:induction false} SweepOfShift(cols: real -> seq<int>, cols2: real -> seq<int>, base: real, dx: int, dy: real, n: nat)
    requires RowsMoved(cols, cols2, dx, dy)
    ensures SweepOf(cols2, base + dy, n) == ShiftCells(SweepOf(cols, base, n), dx, dy)
    decreases n
  {
    if n > 0 {
      SweepOfShift(cols, cols2, base, dx, dy, n - 1);
      var line := base + (n - 1) as real;
      assert (base + dy) + (n - 1) as real == line + dy;
      assert cols2(line + dy) == ShiftInts(cols(line), dx);
      ColumnsShift(cols(line), line, dx, dy);
      ShiftCellsAppend(SweepOf(cols, base, n - 1), Columns(cols(line), line), dx, dy);
    }
  }

  /** The sweep of the moved polygon's scanlines, counted from the old `minY` moved by `dy`, is the old sweep moved by `(dx, dy)`. */
  lemma SweepShift(pts: seq<Point>, dx: int, dy: real, n: nat)
    requires |pts| > 0
    ensures SweepOf(RowsOf(Translate(pts, dx as real, dy)), MinY(pts) + dy, n)
      == ShiftCells(SweepOf(RowsOf(pts), MinY(pts), n), dx, dy)
  {
    var moved := Translate(pts, dx as real, dy);
    assert RowsMoved(RowsOf(pts), RowsOf(moved), dx, dy) by {
      AllRowsShift(pts, dx, dy);
    }
    SweepOfShift(RowsOf(pts), RowsOf(moved), MinY(pts), dx, dy, n);
  }

  /** Moving both ends of an interval by the same amount keeps the whole part of its length. */
  lemma FloorShift(lo: real, hi: real, lo2: real, hi2: real, d: real)
    requires lo2 == lo + d && hi2 == hi + d
    ensures Floor(hi2 - lo2) == Floor(hi - lo)
  {
    assert hi2 - lo2 == hi - lo;
  }

  /**
   * A polygon whose `minY` and `maxY` are those of `pts` moved down by `dy`
   * sweeps as many scanlines as `pts`, starting from the moved `minY`.
   */
  lemma MovedSweep(pts: seq<Point>, moved: seq<Point>, dy: real)
    requires |pts| >= 2 && |moved| >= 2
    requires MinY(moved) == MinY(pts) + dy && MaxY(moved) == MaxY(pts) + dy
    ensures Cells(moved) == SweepOf(RowsOf(moved), MinY(pts) + dy, Floor(MaxY(pts) - MinY(pts)) + 1)
  {
    CellsAsSweep(moved);
    FloorShift(MinY(pts), MaxY(pts), MinY(moved), MaxY(moved), dy);
  }

  /**
   * Moving a polygon by a whole number of pixels across and any amount down
   * moves every cell of its fill by the same amount, and keeps their order.
   */
  lemma CellsShift(pts: seq<Point>, dx: int, dy: real)
    ensures Cells(Translate(pts, dx as real, dy)) == ShiftCells(Cells(pts), dx, dy)
  {
    if |pts| >= 2 {
      var moved := Translate(pts, dx as real, dy);
      var n := Floor(MaxY(pts) - MinY(pts)) + 1;
      var after := SweepOf(RowsOf(moved), MinY(pts) + dy, n);
      var before := SweepOf(RowsOf(pts), MinY(pts), n);
      assert after == ShiftCells(before, dx, dy) by {
        SweepShift(pts, dx, dy, n);
      }
      assert Cells(moved) == after by {
        BoundsShift(pts, dx as real, dy);
        MovedSweep(pts, moved, dy);
      }
      assert Cells(pts) == before by {
        CellsAsSweep(pts);
      }
    }
  }
}
