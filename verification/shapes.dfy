/**
 * `DrawShape`, `DrawFilledShape` and `DrawRectangle`: a polygon outline made
 * of `DrawLine` segments, the scanline fill of a polygon, and the fill of the
 * unit square pushed through a 2×2 matrix and translated.
 */
module Shapes {
  import opened Numeric
  import opened Geometry
  import opened PixelBuffer
  import opened Bresenham
  import opened Scanline

  /** Every write is in colour `c`. */
  predicate AllColor(ws: seq<Write>, c: Color)
  {
    forall k :: 0 <= k < |ws| ==> ws[k].color == c
  }

  /** The writes of `DrawLine` from `p` to `q`. */
  function SegmentWrites(p: Point, q: Point, c: Color): (ws: seq<Write>)
    ensures AllColor(ws, c)
  {
    Solid(Line(p.x, p.y, q.x, q.y), c)
  }

  /** The writes of a list of segments, one segment after the other. */
  function Concat(segs: seq<seq<Write>>): seq<Write>
    decreases |segs|
  {
    if |segs| == 0 then [] else Concat(segs[..|segs| - 1]) + segs[|segs| - 1]
  }

  lemma AppendColor(a: seq<Write>, b: seq<Write>, c: Color)
    requires AllColor(a, c) && AllColor(b, c)
    ensures AllColor(a + b, c)
  {
    forall k | 0 <= k < |a + b|
      ensures (a + b)[k].color == c
    {
      if k >= |a| {
        assert (a + b)[k] == b[k - |a|];
      }
    }
  }

  /** Segments all in colour `c` concatenate to writes all in colour `c`. */
  lemma {:induction false} ConcatColor(segs: seq<seq<Write>>, c: Color)
    requires forall i :: 0 <= i < |segs| ==> AllColor(segs[i], c)
    ensures AllColor(Concat(segs), c)
    decreases |segs|
  {
    if |segs| > 0 {
      var init := segs[..|segs| - 1];
      assert forall i :: 0 <= i < |init| ==> init[i] == segs[i];
      ConcatColor(init, c);
      AppendColor(Concat(init), segs[|segs| - 1], c);
    }
  }

  /** The segments `pts[0]→pts[1]`, …, `pts[n-1]→pts[n]`, as the outline loop draws them. */
  function Links(pts: seq<Point>, c: Color, n: nat): (segs: seq<seq<Write>>)
    requires n < |pts|
    ensures |segs| == n
    ensures forall i :: 0 <= i < n ==> segs[i] == SegmentWrites(pts[i], pts[i + 1], c)
  {
    seq(n, i requires 0 <= i < n => SegmentWrites(pts[i], pts[i + 1], c))
  }

  /** The open chain through the first `n + 1` points. */
  function Chain(pts: seq<Point>, c: Color, n: nat): (ws: seq<Write>)
    requires n < |pts|
    ensures AllColor(ws, c)
  {
    ConcatColor(Links(pts, c, n), c);
    Concat(Links(pts, c, n))
  }

  /** The chain through one more point is the chain so far followed by the link to that point. */
  lemma ChainSnoc(pts: seq<Point>, c: Color, i: nat)
    requires i + 1 < |pts|
    ensures Chain(pts, c, i + 1) == Chain(pts, c, i) + SegmentWrites(pts[i], pts[i + 1], c)
  {
    var links := Links(pts, c, i + 1);
    assert links[..i] == Links(pts, c, i);
  }

  /**
   * The writes of `DrawShape`: nothing for fewer than two points; otherwise
   * the chain through all points followed by the closing segment from the
   * last point back to the first.
   */
  function OutlineWrites(pts: seq<Point>, c: Color): (ws: seq<Write>)
    ensures AllColor(ws, c)
  {
    if |pts| < 2 then []
    else
      var chain, closing := Chain(pts, c, |pts| - 1), SegmentWrites(pts[|pts| - 1], pts[0], c);
      AppendColor(chain, closing, c);
      chain + closing
  }

  /** The segments of the `|pts|` edges of the closed polygon, edge `i` running from `pts[i]` to the point after it. */
  function Edges(pts: seq<Point>, c: Color): (segs: seq<seq<Write>>)
    ensures |segs| == |pts|
    ensures forall i :: 0 <= i < |pts| ==> segs[i] == SegmentWrites(pts[i], Next(pts, i), c)
  {
    seq(|pts|, i requires 0 <= i < |pts| => SegmentWrites(pts[i], Next(pts, i), c))
  }

  /** The links are the first edges: before the last point, the point after `pts[i]` is `pts[i + 1]`. */
  lemma LinksAreEdges(pts: seq<Point>, c: Color)
    requires |pts| >= 2
    ensures Links(pts, c, |pts| - 1) == Edges(pts, c)[..|pts| - 1]
  {
    forall i | 0 <= i < |pts| - 1
      ensures Links(pts, c, |pts| - 1)[i] == Edges(pts, c)[i]
    {
      NextInside(pts, i);
    }
  }

  /**
   * The outline is the closed polygon: with fewer than two points nothing is
   * drawn, and otherwise exactly the segments of the `|pts|` edges, the last
   * edge joining the final point back to the first, in edge order.
   */
  lemma OutlineIsClosedPolygon(pts: seq<Point>, c: Color)
    ensures |pts| < 2 ==> OutlineWrites(pts, c) == []
    ensures |pts| >= 2 ==> OutlineWrites(pts, c) == Concat(Edges(pts, c))
  {
    if |pts| >= 2 {
      var edges := Edges(pts, c);
      LinksAreEdges(pts, c);
      NextWraps(pts);
      assert edges[..|edges| - 1] == Links(pts, c, |pts| - 1);
      assert edges[|edges| - 1] == SegmentWrites(pts[|pts| - 1], pts[0], c);
    }
  }

  /** One more segment of the chain is one more line drawn on top of the chain so far. */
  lemma ChainStep(buf: Buffer, pts: seq<Point>, c: Color, i: nat)
    requires buf.Valid() && 0.0 <= c.a && i + 1 < |pts|
    ensures Render(buf, Chain(pts, c, i + 1)) == Render(Render(buf, Chain(pts, c, i)), SegmentWrites(pts[i], pts[i + 1], c))
  {
    ChainSnoc(pts, c, i);
    RenderAppend(buf, Chain(pts, c, i), SegmentWrites(pts[i], pts[i + 1], c));
  }

  /** The outline is the chain through all points followed by the closing line. */
  lemma OutlineStep(buf: Buffer, pts: seq<Point>, c: Color)
    requires buf.Valid() && 0.0 <= c.a && |pts| >= 2
    ensures Render(buf, OutlineWrites(pts, c))
      == Render(Render(buf, Chain(pts, c, |pts| - 1)), SegmentWrites(pts[|pts| - 1], pts[0], c))
  {
    RenderAppend(buf, Chain(pts, c, |pts| - 1), SegmentWrites(pts[|pts| - 1], pts[0], c));
  }

  /** `DrawShape`: draws the segments between consecutive points, then the closing segment. */
  method DrawShape(buf: Buffer, pts: seq<Point>, color: Color) returns (r: Buffer)
    requires buf.Valid() && 0.0 <= color.a
    ensures r == Render(buf, OutlineWrites(pts, color))
  {
    if |pts| < 2 {
      return buf;
    }
    r := buf;
    var i := 0;
    while i < |pts| - 1
      invariant 0 <= i <= |pts| - 1
      invariant r.Valid() && r == Render(buf, Chain(pts, color, i))
    {
      ChainStep(buf, pts, color, i);
      r := DrawLine(r, pts[i].x, pts[i].y, pts[i + 1].x, pts[i + 1].y, color);
      i := i + 1;
    }
    OutlineStep(buf, pts, color);
    var last := pts[|pts| - 1];
    r := DrawLine(r, last.x, last.y, pts[0].x, pts[0].y, color);
  }

  /** The writes of `DrawFilledShape`: each visited cell, drawn one row up, at `(x, y - 1)`. */
  function FillWrites(pts: seq<Point>, c: Color): (ws: seq<Write>)
    ensures |ws| == |Cells(pts)|
    ensures forall k :: 0 <= k < |ws| ==> ws[k] == Write(Cells(pts)[k].x as real, Cells(pts)[k].y - 1.0, c)
  {
    var cells := Cells(pts);
    seq(|cells|, k requires 0 <= k < |cells| => Write(cells[k].x as real, cells[k].y - 1.0, c))
  }

  /** `DrawFilledShape`: the fill's writes applied to the buffer in visiting order. */
  function DrawFilledShape(buf: Buffer, pts: seq<Point>, c: Color): (r: Buffer)
    requires buf.Valid() && 0.0 <= c.a
    ensures r.Valid() && r.width == buf.width && r.height == buf.height
  {
    Render(buf, FillWrites(pts, c))
  }

  /** Some visited cell is written to pixel `(x, y)`. */
  predicate FillsPixel(pts: seq<Point>, x: int, y: int)
  {
    exists cell :: cell in Cells(pts) && cell.x == x && Round(cell.y - 1.0) == y
  }

  lemma FillTouches(pts: seq<Point>, c: Color, x: int, y: int)
    ensures Touches(FillWrites(pts, c), x, y) <==> FillsPixel(pts, x, y)
  {
    var ws, cells := FillWrites(pts, c), Cells(pts);
    if Touches(ws, x, y) {
      var i :| 0 <= i < |ws| && Hits(ws[i], x, y);
      assert cells[i] in cells;
    }
    if FillsPixel(pts, x, y) {
      var cell :| cell in cells && cell.x == x && Round(cell.y - 1.0) == y;
      var i :| 0 <= i < |cells| && cells[i] == cell;
      assert Hits(ws[i], x, y);
    }
  }

  /**
   * The fill changes no pixel outside the cells it visits, and with an
   * opaque colour every pixel it visits ends up in that colour.
   */
  lemma FilledShapeEffect(buf: Buffer, pts: seq<Point>, c: Color, x: int, y: int)
    requires buf.Valid() && 0.0 <= c.a && buf.InBounds(x, y)
    ensures !FillsPixel(pts, x, y) ==> Get(DrawFilledShape(buf, pts, c), x, y) == Get(buf, x, y)
    ensures FillsPixel(pts, x, y) && 255.0 <= c.a ==> Get(DrawFilledShape(buf, pts, c), x, y) == Opaque(c)
  {
    var ws := FillWrites(pts, c);
    FillTouches(pts, c, x, y);
    if !FillsPixel(pts, x, y) {
      RenderElsewhere(buf, ws, x, y);
    } else if 255.0 <= c.a {
      RenderSolidOpaque(buf, ws, c, x, y);
    }
  }

  /** `DrawRectangle`'s corners: the unit square through `m`, translated by `(x1, y1)`. */
  function RectanglePoints(x1: real, y1: real, m: Mat2): seq<Point>
  {
    Translate(MapPoints(m, UnitSquare), x1, y1)
  }

  /** `DrawRectangle`: the fill of the rectangle's corners. */
  function DrawRectangle(buf: Buffer, x1: real, y1: real, m: Mat2, c: Color): (r: Buffer)
    requires buf.Valid() && 0.0 <= c.a
    ensures r.Valid() && r.width == buf.width && r.height == buf.height
  {
    DrawFilledShape(buf, RectanglePoints(x1, y1, m), c)
  }

  /** The corners in order: `(x1, y1)`, then the images of `(0, 1)`, `(1, 1)` and `(1, 0)`, moved by `(x1, y1)`. */
  lemma RectangleCorners(x1: real, y1: real, m: Mat2)
    ensures RectanglePoints(x1, y1, m) ==
      [Point(x1, y1), Point(x1 + m.b, y1 + m.d), Point(x1 + m.a + m.b, y1 + m.c + m.d), Point(x1 + m.a, y1 + m.c)]
  {
  }

  /** The axis-aligned box with corners `(a, b)`, `(a, d)`, `(c, d)`, `(c, b)`, listed in the rectangle's order. */
  function Box(a: real, b: real, c: real, d: real): seq<Point>
  {
    [Point(a, b), Point(a, d), Point(c, d), Point(c, b)]
  }

  /** A box meets the scanline `y` on its left and right sides exactly when `b < y <= d`. */
  lemma BoxCrossings(a: real, b: real, c: real, d: real, y: real)
    requires b < d
    ensures Crossings(Box(a, b, c, d), y) == if b < y <= d then [a, c] else []
  {
    var pts := Box(a, b, c, d);
    assert Next(pts, 0) == pts[1] && Next(pts, 1) == pts[2] && Next(pts, 2) == pts[3] && Next(pts, 3) == pts[0];
    assert EdgeCrossings(pts, y, 1) == if b < y <= d then [a] else [];
    assert EdgeCrossings(pts, y, 2) == EdgeCrossings(pts, y, 1);
    assert EdgeCrossings(pts, y, 3) == if b < y <= d then [a, c] else [];
    assert EdgeCrossings(pts, y, 4) == EdgeCrossings(pts, y, 3);
  }

  /** The top of a box is its first scanline and the bottom its last. */
  lemma BoxBounds(a: real, b: real, c: real, d: real)
    requires b < d
    ensures MinY(Box(a, b, c, d)) == b && MaxY(Box(a, b, c, d)) == d
  {
    var ys := Ys(Box(a, b, c, d));
    assert ys == [b, d, d, b];
    assert Hi(ys) >= ys[1];
  }

  /** A box's scanline between its top (excluded) and bottom (included) holds the columns `ceil(a) … floor(c)`; any other holds none. */
  lemma BoxRow(a: real, b: real, c: real, d: real, y: real)
    requires a <= c && b < d
    ensures RowColumns(Box(a, b, c, d), y) == if b < y <= d then Range(Ceil(a), Floor(c)) else []
  {
    BoxCrossings(a, b, c, d, y);
    if b < y <= d {
      assert [a, c][1..] == [c] && [c][1..] == [];
      assert Sort([c]) == Insert(c, []) == [c];
      assert Sort([a, c]) == Insert(a, [c]) == [a, c];
      assert Spans([a, c]) == Range(Ceil(a), Floor(c)) + Spans([]);
    }
  }

  /**
   * The fill of a box with `a <= c` and `b < d` visits exactly the columns
   * `ceil(a) … floor(c)` on the scanlines `b + 1, b + 2, …` up to `d`: the
   * scanline `b` itself meets no edge.
   */
  lemma BoxCells(a: real, b: real, c: real, d: real, cell: Cell)
    requires a <= c && b < d
    ensures cell in Cells(Box(a, b, c, d)) <==>
      b < cell.y <= d && Floor(cell.y - b) as real == cell.y - b && Ceil(a) <= cell.x <= Floor(c)
  {
    BoxBounds(a, b, c, d);
    CellsMembership(Box(a, b, c, d), cell);
    BoxRow(a, b, c, d, cell.y);
    RangeMembership(Ceil(a), Floor(c), cell.x);
  }

  /** The scaling matrix `[[w, 0], [0, h]]`. */
  function Scale(w: real, h: real): Mat2
  {
    Mat2(w, 0.0, 0.0, h)
  }

  /** Scaling the unit square by `(w, h)` and moving it to `(x1, y1)` gives the box from `(x1, y1)` to `(x1 + w, y1 + h)`. */
  lemma ScaledBox(x1: real, y1: real, w: real, h: real)
    ensures RectanglePoints(x1, y1, Scale(w, h)) == Box(x1, y1, x1 + w, y1 + h)
  {
    RectangleCorners(x1, y1, Scale(w, h));
  }

  /** A pixel written by the fill of a whole-pixel box lies in its columns `x1 … x1 + w` and rows `y1 … y1 + h - 1`. */
  lemma BoxFillsOnly(x1: int, y1: int, w: nat, h: nat, x: int, y: int)
    requires h > 0 && FillsPixel(Box(x1 as real, y1 as real, (x1 + w) as real, (y1 + h) as real), x, y)
    ensures x1 <= x <= x1 + w && y1 <= y < y1 + h
  {
    var a, b, c, d := x1 as real, y1 as real, (x1 + w) as real, (y1 + h) as real;
    var cell :| cell in Cells(Box(a, b, c, d)) && cell.x == x && Round(cell.y - 1.0) == y;
    BoxCells(a, b, c, d, cell);
    var k := Floor(cell.y - b);
    assert cell.y - 1.0 == (y1 + k - 1) as real;
  }

  /** Every pixel in the columns `x1 … x1 + w` and rows `y1 … y1 + h - 1` is written by the fill of the box. */
  lemma BoxFillsAll(x1: int, y1: int, w: nat, h: nat, x: int, y: int)
    requires h > 0 && x1 <= x <= x1 + w && y1 <= y < y1 + h
    ensures FillsPixel(Box(x1 as real, y1 as real, (x1 + w) as real, (y1 + h) as real), x, y)
  {
    var a, b, c, d := x1 as real, y1 as real, (x1 + w) as real, (y1 + h) as real;
    var cell := Cell(x, (y + 1) as real);
    BoxCells(a, b, c, d, cell);
    assert Floor(cell.y - b) == y + 1 - y1;
    assert Round(cell.y - 1.0) == y;
  }

  /**
   * A rectangle at integer `(x1, y1)` scaled by whole `w >= 0` and `h > 0`
   * covers the columns `x1 … x1 + w` (both ends included) on the rows
   * `y1 … y1 + h - 1`.
   */
  lemma AxisRectangleFills(x1: int, y1: int, w: nat, h: nat, x: int, y: int)
    requires h > 0
    ensures FillsPixel(RectanglePoints(x1 as real, y1 as real, Scale(w as real, h as real)), x, y) <==>
      x1 <= x <= x1 + w && y1 <= y < y1 + h
  {
    ScaledBox(x1 as real, y1 as real, w as real, h as real);
    assert x1 as real + w as real == (x1 + w) as real && y1 as real + h as real == (y1 + h) as real;
    if FillsPixel(Box(x1 as real, y1 as real, (x1 + w) as real, (y1 + h) as real), x, y) {
      BoxFillsOnly(x1, y1, w, h, x, y);
    }
    if x1 <= x <= x1 + w && y1 <= y < y1 + h {
      BoxFillsAll(x1, y1, w, h, x, y);
    }
  }

  /**
   * With an opaque colour, `DrawRectangle(x1, y1, [[w, 0], [0, h]], color)`
   * paints exactly the pixels with `x1 <= x <= x1 + w` and `y1 <= y < y1 + h`
   * and leaves every other pixel as it was. For the rectangle at (10, 10)
   * scaled by (20, 10) that is the columns 10 to 30 of the rows 10 to 19.
   */
  lemma AxisRectangle(buf: Buffer, x1: int, y1: int, w: nat, h: nat, color: Color, x: int, y: int)
    requires buf.Valid() && 255.0 <= color.a && buf.InBounds(x, y) && h > 0
    ensures Get(DrawRectangle(buf, x1 as real, y1 as real, Scale(w as real, h as real), color), x, y)
      == if x1 <= x <= x1 + w && y1 <= y < y1 + h then Opaque(color) else Get(buf, x, y)
  {
    AxisRectangleFills(x1, y1, w, h, x, y);
    FilledShapeEffect(buf, RectanglePoints(x1 as real, y1 as real, Scale(w as real, h as real)), color, x, y);
  }
}
