/**
 * `DrawLine`: the all-octant integer Bresenham walk with error term
 * `dx − dy`, from the rounded start point to the rounded end point.
 *
 * `Trace` is the walk as a recursive function (the pixels visited, in
 * order); `DrawLine` is the engine's imperative loop over a buffer, proved to
 * write exactly those pixels. The lemmas state what the walk guarantees.
 */
module Bresenham {
  import opened Numeric
  import opened PixelBuffer

  /** A pixel on the integer grid. */
  datatype Pixel = Pixel(x: int, y: int)

  /** The constants `DrawLine` fixes before its loop. */
  datatype Setup = Setup(start: Pixel, end: Pixel, dx: int, dy: int, signX: int, signY: int)

  /** The coordinate `k` unit steps from `s` in direction `sign`. */
  function Along(s: int, sign: int, k: int): int
  {
    if sign == 1 then s + k else s - k
  }

  /** One axis of the setup is consistent: a unit sign that leads from `s` to `e` in `d >= 0` steps. */
  predicate AxisOk(s: int, e: int, d: int, sign: int)
  {
    (sign == 1 || sign == -1) && 0 <= d && e == Along(s, sign, d)
  }

  predicate SetupOk(g: Setup)
  {
    AxisOk(g.start.x, g.end.x, g.dx, g.signX) && AxisOk(g.start.y, g.end.y, g.dy, g.signY)
  }

  /** Rounding, deltas and step directions, as the engine computes them. */
  function MakeSetup(startx: real, starty: real, endx: real, endy: real): (g: Setup)
    ensures SetupOk(g)
    ensures g.start == Pixel(Round(startx), Round(starty)) && g.end == Pixel(Round(endx), Round(endy))
  {
    var sx, sy, ex, ey := Round(startx), Round(starty), Round(endx), Round(endy);
    Setup(Pixel(sx, sy), Pixel(ex, ey), Abs(ex - sx), Abs(ey - sy),
          if sx < ex then 1 else -1, if sy < ey then 1 else -1)
  }

  /** The loop state: the current pixel and the error accumulator. */
  datatype Cursor = Cursor(x: int, y: int, error: int)

  function Initial(g: Setup): Cursor
  {
    Cursor(g.start.x, g.start.y, g.dx - g.dy)
  }

  /** Steps taken so far along x (and along y): distance from the start in the step direction. */
  function XSteps(g: Setup, c: Cursor): int
  {
    if g.signX == 1 then c.x - g.start.x else g.start.x - c.x
  }

  function YSteps(g: Setup, c: Cursor): int
  {
    if g.signY == 1 then c.y - g.start.y else g.start.y - c.y
  }

  /**
   * The loop invariant: the cursor has taken `i <= dx` steps along x and
   * `j <= dy` along y, and the error term is `(j+1)·dx − (i+1)·dy`.
   */
  predicate Inv(g: Setup, c: Cursor)
  {
    var i, j := XSteps(g, c), YSteps(g, c);
    && SetupOk(g)
    && 0 <= i <= g.dx && 0 <= j <= g.dy
    && c.error == (j + 1) * g.dx - (i + 1) * g.dy
  }

  predicate AtEnd(g: Setup, c: Cursor)
  {
    c.x == g.end.x && c.y == g.end.y
  }

  /** Steps still to take; it bounds the number of loop iterations left. */
  function Remaining(g: Setup, c: Cursor): nat
    requires Inv(g, c)
  {
    (g.dx - XSteps(g, c)) + (g.dy - YSteps(g, c))
  }

  /** One iteration of the loop body after the end test: both tests read the same doubled error. */
  function Step(g: Setup, c: Cursor): Cursor
  {
    var e2 := c.error * 2;
    var moveX := e2 > -g.dy;
    var moveY := e2 < g.dx;
    Cursor(if moveX then c.x + g.signX else c.x,
           if moveY then c.y + g.signY else c.y,
           c.error - (if moveX then g.dy else 0) + (if moveY then g.dx else 0))
  }

  /** One step: each coordinate stays or moves one unit in its own direction, and not both stay. */
  predicate IsStep(g: Setup, p: Pixel, q: Pixel)
  {
    && (q.x == p.x || q.x == p.x + g.signX)
    && (q.y == p.y || q.y == p.y + g.signY)
    && p != q
  }

  /** Consecutive pixels of `ps` are one step apart. */
  predicate Steps(g: Setup, ps: seq<Pixel>)
  {
    forall k, l :: 0 <= k < |ps| && 0 <= l < |ps| && l == k + 1 ==> IsStep(g, ps[k], ps[l])
  }

  /** The pixel lies in the bounding box of the segment's rounded end points. */
  predicate InBox(g: Setup, p: Pixel)
  {
    && (g.start.x <= p.x <= g.end.x || g.end.x <= p.x <= g.start.x)
    && (g.start.y <= p.y <= g.end.y || g.end.y <= p.y <= g.start.y)
  }

  /** At the x end with y short of its end, the doubled error fails the x test. */
  lemma XTestFails(dx: int, dy: int, j: int)
    requires 0 <= dx && 0 <= j < dy
    ensures 2 * ((j + 1) * dx - (dx + 1) * dy) <= -dy
  {
    MulMonotone(j + 1, dy, dx);
    assert (dx + 1) * dy == dx * dy + dy;
  }

  /** At the y end with x short of its end, the doubled error fails the y test. */
  lemma YTestFails(dx: int, dy: int, i: int)
    requires 0 <= dy && 0 <= i < dx
    ensures 2 * ((dy + 1) * dx - (i + 1) * dy) >= dx
  {
    MulMonotone(i + 1, dx, dy);
    assert (dy + 1) * dx == dy * dx + dx;
  }

  /** `(k + 1) · d == k · d + d`. */
  lemma NextMultiple(k: int, d: int)
    ensures (k + 1) * d == k * d + d
  {
  }

  /**
   * Away from the end point a step keeps the invariant, moves at least one
   * axis (so `Remaining` drops) and never moves an axis already at its end.
   */
  lemma StepKeepsInv(g: Setup, c: Cursor)
    requires Inv(g, c) && !AtEnd(g, c)
    ensures Inv(g, Step(g, c))
    ensures Remaining(g, Step(g, c)) < Remaining(g, c)
    ensures IsStep(g, Pixel(c.x, c.y), Pixel(Step(g, c).x, Step(g, c).y))
  {
    var i, j := XSteps(g, c), YSteps(g, c);
    var dx, dy := g.dx, g.dy;
    var e2 := c.error * 2;
    assert i < dx || j < dy;
    if i == dx {
      XTestFails(dx, dy, j);
    }
    if j == dy {
      YTestFails(dx, dy, i);
    }
    var moveX, moveY := e2 > -dy, e2 < dx;
    assert moveX || moveY;
    var i', j' := if moveX then i + 1 else i, if moveY then j + 1 else j;
    var n := Step(g, c);
    assert XSteps(g, n) == i' && YSteps(g, n) == j';
    NextMultiple(j + 1, dx);
    NextMultiple(i + 1, dy);
    assert n.error == (j' + 1) * dx - (i' + 1) * dy;
  }

  /** A pixel reached by the walk lies in the segment's box. */
  lemma InvInBox(g: Setup, c: Cursor)
    requires Inv(g, c)
    ensures InBox(g, Pixel(c.x, c.y))
  {
  }

  /**
   * The pixels the loop visits from cursor `c` on, in order. It starts at
   * `c`, ends at the end point, moves by single steps and stays in the box.
   */
  function Trace(g: Setup, c: Cursor): (ps: seq<Pixel>)
    requires Inv(g, c)
    ensures |ps| >= 1 && ps[0] == Pixel(c.x, c.y) && ps[|ps| - 1] == g.end
    ensures forall k :: 0 <= k < |ps| ==> InBox(g, ps[k])
    ensures Steps(g, ps)
    decreases Remaining(g, c)
  {
    InvInBox(g, c);
    if AtEnd(g, c) then [Pixel(c.x, c.y)]
    else
      StepKeepsInv(g, c);
      var rest := Trace(g, Step(g, c));
      var ps := [Pixel(c.x, c.y)] + rest;
      assert forall k :: 1 <= k < |ps| ==> ps[k] == rest[k - 1];
      ps
  }

  lemma InitialInv(g: Setup)
    requires SetupOk(g)
    ensures Inv(g, Initial(g))
  {
  }

  /**
   * The pixels `DrawLine` writes, in order: the first is the rounded start
   * point, the last the rounded end point, each next one a single step in the
   * direction of the end point, and none outside the segment's box.
   */
  function Line(startx: real, starty: real, endx: real, endy: real): (ps: seq<Pixel>)
    ensures |ps| >= 1
    ensures ps[0] == Pixel(Round(startx), Round(starty))
    ensures ps[|ps| - 1] == Pixel(Round(endx), Round(endy))
    ensures Steps(MakeSetup(startx, starty, endx, endy), ps)
    ensures forall k :: 0 <= k < |ps| ==> InBox(MakeSetup(startx, starty, endx, endy), ps[k])
  {
    var g := MakeSetup(startx, starty, endx, endy);
    InitialInv(g);
    Trace(g, Initial(g))
  }

  /** `n` pixels from `p`, each one step of `(ddx, ddy)` after the one before. */
  function Run(p: Pixel, ddx: int, ddy: int, n: nat): (r: seq<Pixel>)
    ensures |r| == n && forall k :: 0 <= k < n ==> r[k] == Pixel(p.x + ddx * k, p.y + ddy * k)
  {
    seq(n, k => Pixel(p.x + ddx * k, p.y + ddy * k))
  }

  /** A run of `n + 1` pixels is its first pixel followed by the run of `n` from the next one. */
  lemma RunCons(p: Pixel, ddx: int, ddy: int, n: nat)
    ensures Run(p, ddx, ddy, n + 1) == [p] + Run(Pixel(p.x + ddx, p.y + ddy), ddx, ddy, n)
  {
    var r, q := Run(p, ddx, ddy, n + 1), Run(Pixel(p.x + ddx, p.y + ddy), ddx, ddy, n);
    forall k | 1 <= k < n + 1
      ensures r[k] == q[k - 1]
    {
      assert ddx * k == ddx + ddx * (k - 1) && ddy * k == ddy + ddy * (k - 1);
    }
  }

  /** Before the end of a horizontal line, a step moves one unit along x only. */
  lemma HorizontalStep(g: Setup, c: Cursor)
    requires Inv(g, c) && g.dy == 0 && !AtEnd(g, c)
    ensures var s := Step(g, c);
      Inv(g, s) && s.x == c.x + g.signX && s.y == c.y && XSteps(g, s) == XSteps(g, c) + 1
  {
    StepKeepsInv(g, c);
    assert c.error == g.dx;
  }

  /** Before the end of a vertical line, a step moves one unit along y only. */
  lemma VerticalStep(g: Setup, c: Cursor)
    requires Inv(g, c) && g.dx == 0 && !AtEnd(g, c)
    ensures var s := Step(g, c);
      Inv(g, s) && s.x == c.x && s.y == c.y + g.signY && YSteps(g, s) == YSteps(g, c) + 1
  {
    StepKeepsInv(g, c);
    assert c.error == 0 - g.dy;
  }

  /** A horizontal walk from `c`: `dx − i + 1` pixels, one step of `signX` apart. */
  lemma {:induction false} TraceHorizontal(g: Setup, c: Cursor)
    requires Inv(g, c) && g.dy == 0
    ensures Trace(g, c) == Run(Pixel(c.x, c.y), g.signX, 0, g.dx - XSteps(g, c) + 1)
    decreases Remaining(g, c)
  {
    TraceUnfold(g, c);
    if !AtEnd(g, c) {
      var s := Step(g, c);
      HorizontalStep(g, c);
      TraceHorizontal(g, s);
      RunCons(Pixel(c.x, c.y), g.signX, 0, g.dx - XSteps(g, s) + 1);
    }
  }

  /** A vertical walk from `c`: `dy − j + 1` pixels, one step of `signY` apart. */
  lemma {:induction false} TraceVertical(g: Setup, c: Cursor)
    requires Inv(g, c) && g.dx == 0
    ensures Trace(g, c) == Run(Pixel(c.x, c.y), 0, g.signY, g.dy - YSteps(g, c) + 1)
    decreases Remaining(g, c)
  {
    TraceUnfold(g, c);
    if !AtEnd(g, c) {
      var s := Step(g, c);
      VerticalStep(g, c);
      TraceVertical(g, s);
      RunCons(Pixel(c.x, c.y), 0, g.signY, g.dy - YSteps(g, s) + 1);
    }
  }

  /**
   * A line whose rounded end points share a row writes `|Δx| + 1` pixels of
   * that row, one unit apart and pairwise distinct; likewise for a column.
   */
  lemma AxisAlignedLine(startx: real, starty: real, endx: real, endy: real)
    requires Round(starty) == Round(endy) || Round(startx) == Round(endx)
    ensures var ps := Line(startx, starty, endx, endy);
      var sx, sy, ex, ey := Round(startx), Round(starty), Round(endx), Round(endy);
      && (sy == ey ==> |ps| == Abs(ex - sx) + 1
                       && forall k :: 0 <= k < |ps| ==> ps[k] == Pixel(sx + (if sx < ex then k else -k), sy))
      && (sx == ex ==> |ps| == Abs(ey - sy) + 1
                       && forall k :: 0 <= k < |ps| ==> ps[k] == Pixel(sx, sy + (if sy < ey then k else -k)))
      && forall k, l :: 0 <= k < l < |ps| ==> ps[k] != ps[l]
  {
    var g := MakeSetup(startx, starty, endx, endy);
    InitialInv(g);
    if g.dy == 0 {
      TraceHorizontal(g, Initial(g));
    }
    if g.dx == 0 {
      TraceVertical(g, Initial(g));
    }
  }

  /** The writes of a one-colour pixel list, one per pixel, in order. */
  function Solid(ps: seq<Pixel>, c: Color): (ws: seq<Write>)
    ensures |ws| == |ps|
    ensures forall k :: 0 <= k < |ps| ==> ws[k] == Write(ps[k].x as real, ps[k].y as real, c)
  {
    seq(|ps|, k requires 0 <= k < |ps| => Write(ps[k].x as real, ps[k].y as real, c))
  }

  /** One step of the walk: the trace from `c` is its own pixel followed by the trace from the next cursor. */
  lemma TraceUnfold(g: Setup, c: Cursor)
    requires Inv(g, c)
    ensures !AtEnd(g, c) ==> Inv(g, Step(g, c)) && Trace(g, c) == [Pixel(c.x, c.y)] + Trace(g, Step(g, c))
    ensures AtEnd(g, c) ==> Trace(g, c) == [Pixel(c.x, c.y)]
  {
    if !AtEnd(g, c) {
      StepKeepsInv(g, c);
    }
  }

  /** Rendering a one-colour list that starts at `p` is drawing `p` first and then the rest. */
  lemma RenderSolidCons(buf: Buffer, p: Pixel, ps: seq<Pixel>, c: Color)
    requires buf.Valid() && 0.0 <= c.a
    ensures Render(buf, Solid([p] + ps, c)) == Render(DrawPixel(buf, p.x as real, p.y as real, c), Solid(ps, c))
  {
    assert Solid([p] + ps, c) == [Write(p.x as real, p.y as real, c)] + Solid(ps, c);
    RenderCons(buf, Write(p.x as real, p.y as real, c), Solid(ps, c));
  }

  /**
   * One iteration of the drawing loop: drawing the cursor's pixel either
   * finishes the walk (at the end point) or leaves the rest of the trace,
   * from the next cursor, still to draw.
   */
  lemma WalkStep(r: Buffer, g: Setup, cur: Cursor, color: Color, goal: Buffer)
    requires r.Valid() && 0.0 <= color.a && Inv(g, cur)
    requires Render(r, Solid(Trace(g, cur), color)) == goal
    ensures var next := DrawPixel(r, cur.x as real, cur.y as real, color);
      && (AtEnd(g, cur) ==> next == goal)
      && (!AtEnd(g, cur) ==>
            && Inv(g, Step(g, cur))
            && Remaining(g, Step(g, cur)) < Remaining(g, cur)
            && Render(next, Solid(Trace(g, Step(g, cur)), color)) == goal)
  {
    TraceUnfold(g, cur);
    var p := Pixel(cur.x, cur.y);
    if AtEnd(g, cur) {
      RenderSolidCons(r, p, [], color);
    } else {
      StepKeepsInv(g, cur);
      RenderSolidCons(r, p, Trace(g, Step(g, cur)), color);
    }
  }

  /** The drawing loop of `drawLine`, from the initial cursor of `g` to its end point. */
  method WalkLine(buf: Buffer, g: Setup, color: Color) returns (r: Buffer)
    requires buf.Valid() && 0.0 <= color.a && SetupOk(g)
    ensures r == Render(buf, Solid(Trace(g, Initial(g)), color))
  {
    InitialInv(g);
    var cur := Initial(g);
    ghost var goal := Render(buf, Solid(Trace(g, cur), color));
    r := buf;
    while true
      invariant Inv(g, cur)
      invariant r.Valid() && Render(r, Solid(Trace(g, cur), color)) == goal
      decreases Remaining(g, cur)
    {
      WalkStep(r, g, cur, color, goal);
      r := DrawPixel(r, cur.x as real, cur.y as real, color);
      if cur.x == g.end.x && cur.y == g.end.y {
        break;
      }
      cur := Step(g, cur);
    }
  }

  /**
   * `drawLine`: walks the Bresenham cursor from the rounded start to the
   * rounded end, drawing each visited pixel with `drawPixel`. The buffer it
   * leaves is the one the pixels of `Line` draw in order.
   */
  method DrawLine(buf: Buffer, startx: real, starty: real, endx: real, endy: real, color: Color)
    returns (r: Buffer)
    requires buf.Valid() && 0.0 <= color.a
    ensures r == Render(buf, Solid(Line(startx, starty, endx, endy), color))
  {
    var g := MakeSetup(startx, starty, endx, endy);
    r := WalkLine(buf, g, color);
  }
}
