/**
 * The even-odd scanline pass shared by `DrawFilledShape` and
 * `DrawTexturedRectangle`: scanlines `minY, minY + 1, …` while not above
 * `maxY`, the crossings of each scanline with the closed polygon's edges under
 * the half-open rule, sorted, and the integer columns between each pair of
 * crossings. The pass produces the sequence of visited cells, each a column
 * and the (possibly fractional) scanline it lies on, in the order the loops
 * visit them.
 */
module Scanline {
  import opened Numeric
  import opened Geometry

  /** The least of a non-empty list, folded from the left with `Math.min` as the engine does. */
  function Lo(vs: seq<real>): (m: real)
    requires |vs| > 0
    ensures forall i :: 0 <= i < |vs| ==> m <= vs[i]
    ensures exists i :: 0 <= i < |vs| && vs[i] == m
    decreases |vs|
  {
    if |vs| == 1 then vs[0]
    else
      var init := vs[..|vs| - 1];
      var m := Min(Lo(init), vs[|vs| - 1]);
      assert forall i :: 0 <= i < |init| ==> init[i] == vs[i];
      m
  }

  /** The greatest of a non-empty list, folded from the left with `Math.max`. */
  function Hi(vs: seq<real>): (m: real)
    requires |vs| > 0
    ensures forall i :: 0 <= i < |vs| ==> vs[i] <= m
    ensures exists i :: 0 <= i < |vs| && vs[i] == m
    decreases |vs|
  {
    if |vs| == 1 then vs[0]
    else
      var init := vs[..|vs| - 1];
      var m := Max(Hi(init), vs[|vs| - 1]);
      assert forall i :: 0 <= i < |init| ==> init[i] == vs[i];
      m
  }

  function Xs(pts: seq<Point>): (r: seq<real>)
    ensures |r| == |pts| && forall i :: 0 <= i < |pts| ==> r[i] == pts[i].x
  {
    seq(|pts|, i requires 0 <= i < |pts| => pts[i].x)
  }

  function Ys(pts: seq<Point>): (r: seq<real>)
    ensures |r| == |pts| && forall i :: 0 <= i < |pts| ==> r[i] == pts[i].y
  {
    seq(|pts|, i requires 0 <= i < |pts| => pts[i].y)
  }

  /** `minY` and `maxY` of the fill. */
  function MinY(pts: seq<Point>): real
    requires |pts| > 0
  {
    Lo(Ys(pts))
  }

  function MaxY(pts: seq<Point>): real
    requires |pts| > 0
  {
    Hi(Ys(pts))
  }

  /** The point an edge leaving `pts[i]` runs to: the next point, and the first one after the last. */
  function Next(pts: seq<Point>, i: int): Point
    requires 0 <= i < |pts|
  {
    pts[(i + 1) % |pts|]
  }

  lemma NextInside(pts: seq<Point>, i: int)
    requires 0 <= i && i + 1 < |pts|
    ensures Next(pts, i) == pts[i + 1]
  {
  }

  lemma NextWraps(pts: seq<Point>)
    requires |pts| > 0
    ensures Next(pts, |pts| - 1) == pts[0]
  {
  }

  /** The half-open crossing test: one end strictly below the scanline, the other at or above it. */
  predicate Crosses(p: Point, q: Point, y: real)
  {
    (p.y < y && q.y >= y) || (q.y < y && p.y >= y)
  }

  /** Where the edge from `p` to `q` meets the scanline `y`. */
  function CrossX(p: Point, q: Point, y: real): real
    requires Crosses(p, q, y)
  {
    p.x + (y - p.y) * (q.x - p.x) / (q.y - p.y)
  }

  /** An edge crosses the scanline exactly when its two ends lie on different sides of it. */
  lemma CrossesIffSides(p: Point, q: Point, y: real)
    ensures Crosses(p, q, y) <==> ((p.y < y) != (q.y < y))
  {
  }

  /** A ratio whose numerator lies between 0 and its denominator, on the denominator's side, lies in [0, 1]. */
  lemma RatioBetween(num: real, den: real)
    requires (0.0 < num <= den) || (den < num <= 0.0)
    ensures 0.0 <= num / den <= 1.0
  {
  }

  lemma MulCancel(a: real, b: real, k: real)
    requires k != 0.0 && a * k == b * k
    ensures a == b
  {
    assert (a - b) * k == 0.0;
  }

  /** The crossing lies the fraction `t` of the way from `p` to `q`, with `t` in [0, 1]. */
  lemma CrossAsRatio(p: Point, q: Point, y: real)
    requires Crosses(p, q, y)
    ensures var t := (y - p.y) / (q.y - p.y);
      0.0 <= t <= 1.0 && CrossX(p, q, y) == p.x + t * (q.x - p.x)
  {
    RatioBetween(y - p.y, q.y - p.y);
  }

  /** The crossing does not depend on the direction of the edge. */
  lemma CrossSymmetric(p: Point, q: Point, y: real)
    requires Crosses(p, q, y)
    ensures Crosses(q, p, y) && CrossX(p, q, y) == CrossX(q, p, y)
  {
    var t := (y - p.y) / (q.y - p.y);
    var s := (y - q.y) / (p.y - q.y);
    CrossAsRatio(p, q, y);
    CrossAsRatio(q, p, y);
    assert s == 1.0 - t by {
      var k := q.y - p.y;
      assert s * k == q.y - y;
      assert t * k == y - p.y;
      assert (1.0 - t) * k == k - t * k;
      MulCancel(s, 1.0 - t, k);
    }
  }

  /** The crossing does not depend on the direction of the edge and lies between its ends. */
  lemma CrossBetween(p: Point, q: Point, y: real)
    requires Crosses(p, q, y)
    ensures Crosses(q, p, y) && CrossX(p, q, y) == CrossX(q, p, y)
    ensures Min(p.x, q.x) <= CrossX(p, q, y) <= Max(p.x, q.x)
  {
    CrossSymmetric(p, q, y);
    var t := (y - p.y) / (q.y - p.y);
    CrossAsRatio(p, q, y);
    if p.x <= q.x {
      MulNonNegative(t, q.x - p.x);
      MulNonNegative(1.0 - t, q.x - p.x);
    } else {
      MulNonNegative(t, p.x - q.x);
      MulNonNegative(1.0 - t, p.x - q.x);
    }
  }

  /** The crossings of the first `n` edges with the scanline `y`, pushed in edge order. */
  function EdgeCrossings(pts: seq<Point>, y: real, n: nat): seq<real>
    requires n <= |pts|
    decreases n
  {
    if n == 0 then []
    else
      var p, q := pts[n - 1], Next(pts, n - 1);
      EdgeCrossings(pts, y, n - 1) + (if Crosses(p, q, y) then [CrossX(p, q, y)] else [])
  }

  /** `intersections` before sorting: the crossings of all edges of the closed polygon. */
  function Crossings(pts: seq<Point>, y: real): seq<real>
  {
    EdgeCrossings(pts, y, |pts|)
  }

  /** Edge `i` crosses the scanline `y` at `x`. */
  predicate CrossingAt(pts: seq<Point>, y: real, i: int, x: real)
    requires 0 <= i < |pts|
  {
    Crosses(pts[i], Next(pts, i), y) && CrossX(pts[i], Next(pts, i), y) == x
  }

  lemma {:induction false} EdgeCrossingsMembership(pts: seq<Point>, y: real, n: nat, x: real)
    requires n <= |pts|
    ensures x in EdgeCrossings(pts, y, n) <==> exists i :: 0 <= i < n && CrossingAt(pts, y, i, x)
    decreases n
  {
    if n > 0 {
      EdgeCrossingsMembership(pts, y, n - 1, x);
      var p, q := pts[n - 1], Next(pts, n - 1);
      var last := if Crosses(p, q, y) then [CrossX(p, q, y)] else [];
      assert EdgeCrossings(pts, y, n) == EdgeCrossings(pts, y, n - 1) + last;
      assert x in last <==> CrossingAt(pts, y, n - 1, x);
      if x in last {
        assert CrossingAt(pts, y, n - 1, x);
      }
    }
  }

  /** A value is a crossing exactly when some edge of the closed polygon meets the scanline there. */
  lemma CrossingsMembership(pts: seq<Point>, y: real, x: real)
    ensures x in Crossings(pts, y) <==> exists i :: 0 <= i < |pts| && CrossingAt(pts, y, i, x)
  {
    EdgeCrossingsMembership(pts, y, |pts|, x);
  }

  /** Each edge adds one crossing if it crosses the scanline and none otherwise. */
  lemma EdgeCrossingsCount(pts: seq<Point>, y: real, n: nat)
    requires 0 < n <= |pts|
    ensures |EdgeCrossings(pts, y, n)| ==
      |EdgeCrossings(pts, y, n - 1)| + (if Crosses(pts[n - 1], Next(pts, n - 1), y) then 1 else 0)
  {
  }

  /** Adding one flips parity and adding none keeps it. */
  lemma ParityStep(m: int, flip: bool)
    ensures (m + (if flip then 1 else 0)) % 2 == 0 <==> ((m % 2 == 0) != flip)
  {
  }

  /** Along the open path `pts[0] … pts[n]` the crossings are even exactly when both ends are on the same side. */
  lemma {:induction false} PathCrossingsParity(pts: seq<Point>, y: real, n: nat)
    requires n < |pts|
    ensures |EdgeCrossings(pts, y, n)| % 2 == 0 <==> ((pts[0].y < y) == (pts[n].y < y))
    decreases n
  {
    if n > 0 {
      PathCrossingsParity(pts, y, n - 1);
      NextInside(pts, n - 1);
      CrossesIffSides(pts[n - 1], pts[n], y);
      EdgeCrossingsCount(pts, y, n);
      ParityStep(|EdgeCrossings(pts, y, n - 1)|, Crosses(pts[n - 1], pts[n], y));
    }
  }

  /**
   * A closed polygon meets every scanline an even number of times, so the
   * sorted crossings pair up completely and the unpaired-trailing case of the
   * span loop never arises from a polygon's own edges.
   */
  lemma CrossingsEven(pts: seq<Point>, y: real)
    ensures |Crossings(pts, y)| % 2 == 0
  {
    var n := |pts|;
    if n > 0 {
      PathCrossingsParity(pts, y, n - 1);
      NextWraps(pts);
      CrossesIffSides(pts[n - 1], pts[0], y);
      EdgeCrossingsCount(pts, y, n);
      ParityStep(|EdgeCrossings(pts, y, n - 1)|, Crosses(pts[n - 1], pts[0], y));
    }
  }

  predicate Sorted(xs: seq<real>)
  {
    forall i, j :: 0 <= i < j < |xs| ==> xs[i] <= xs[j]
  }

  /** Insertion of `x` into a sorted list, before the first element not below it. */
  function Insert(x: real, xs: seq<real>): seq<real>
    decreases |xs|
  {
    if |xs| == 0 || x <= xs[0] then [x] + xs else [xs[0]] + Insert(x, xs[1..])
  }

  /**
   * `intersections.sort((a, b) => a - b)`: ascending numeric order. The
   * engine leaves the algorithm to the JavaScript runtime; any correct sort
   * gives this result, since a sorted permutation is unique (`SortedUnique`).
   */
  function Sort(xs: seq<real>): seq<real>
    decreases |xs|
  {
    if |xs| == 0 then [] else Insert(xs[0], Sort(xs[1..]))
  }

  /** Insertion adds exactly one occurrence of `x`. */
  lemma {:induction false} InsertCount(x: real, xs: seq<real>)
    ensures multiset(Insert(x, xs)) == multiset(xs) + multiset{x}
    decreases |xs|
  {
    if |xs| > 0 && x > xs[0] {
      InsertCount(x, xs[1..]);
      assert xs == [xs[0]] + xs[1..];
    }
  }

  /** A lower bound of `x` and of every element of `xs` bounds every element after insertion. */
  lemma {:induction false} InsertAbove(b: real, x: real, xs: seq<real>)
    requires b <= x && forall k :: 0 <= k < |xs| ==> b <= xs[k]
    ensures forall k :: 0 <= k < |Insert(x, xs)| ==> b <= Insert(x, xs)[k]
    decreases |xs|
  {
    if |xs| > 0 && x > xs[0] {
      InsertAbove(b, x, xs[1..]);
      var r := Insert(x, xs);
      assert r == [xs[0]] + Insert(x, xs[1..]);
      forall k | 0 <= k < |r|
        ensures b <= r[k]
      {
        if k > 0 {
          assert r[k] == Insert(x, xs[1..])[k - 1];
        }
      }
    }
  }

  /** Inserting into a sorted list keeps it sorted. */
  lemma {:induction false} InsertSorted(x: real, xs: seq<real>)
    requires Sorted(xs)
    ensures Sorted(Insert(x, xs))
    decreases |xs|
  {
    if |xs| > 0 && x > xs[0] {
      var tail := xs[1..];
      var rest := Insert(x, tail);
      InsertSorted(x, tail);
      InsertAbove(xs[0], x, tail);
      var r := Insert(x, xs);
      assert r == [xs[0]] + rest;
      forall i, j | 0 <= i < j < |r|
        ensures r[i] <= r[j]
      {
        assert r[j] == rest[j - 1];
        if i > 0 {
          assert r[i] == rest[i - 1];
        }
      }
    }
  }

  /** Inserting into a sorted list keeps it sorted and adds exactly `x`. */
  lemma InsertCorrect(x: real, xs: seq<real>)
    requires Sorted(xs)
    ensures Sorted(Insert(x, xs))
    ensures multiset(Insert(x, xs)) == multiset(xs) + multiset{x}
  {
    InsertSorted(x, xs);
    InsertCount(x, xs);
  }

  /** `Sort` returns an ascending permutation of its input. */
  lemma {:induction false} SortCorrect(xs: seq<real>)
    ensures Sorted(Sort(xs))
    ensures multiset(Sort(xs)) == multiset(xs)
    decreases |xs|
  {
    if |xs| > 0 {
      SortCorrect(xs[1..]);
      InsertCorrect(xs[0], Sort(xs[1..]));
      assert xs == [xs[0]] + xs[1..];
    }
  }

  lemma MultisetTail(a: seq<real>)
    requires |a| > 0
    ensures multiset(a[1..]) == multiset(a) - multiset{a[0]}
  {
    assert a == [a[0]] + a[1..];
  }

  /** Two sorted lists holding the same values are equal: sorting has exactly one correct answer. */
  lemma {:induction false} SortedUnique(a: seq<real>, b: seq<real>)
    requires Sorted(a) && Sorted(b) && multiset(a) == multiset(b)
    ensures a == b
    decreases |a|
  {
    assert |a| == |multiset(a)| == |multiset(b)| == |b|;
    if |a| > 0 {
      assert a[0] in multiset(b) && b[0] in multiset(a);
      var i :| 0 <= i < |b| && b[i] == a[0];
      var j :| 0 <= j < |a| && a[j] == b[0];
      assert b[0] <= b[i] && a[0] <= a[j];
      assert a[0] == b[0];
      MultisetTail(a);
      MultisetTail(b);
      SortedUnique(a[1..], b[1..]);
    }
  }

  /** The integers `lo, lo + 1, …, hi`, in increasing order; empty when `lo > hi`. */
  function Range(lo: int, hi: int): seq<int>
  {
    seq(if lo <= hi then hi - lo + 1 else 0, k => lo + k)
  }

  /** `Range` holds exactly the integers from `lo` to `hi`, each once, in increasing order. */
  lemma RangeMembership(lo: int, hi: int, x: int)
    ensures x in Range(lo, hi) <==> lo <= x <= hi
    ensures forall i, j :: 0 <= i < j < |Range(lo, hi)| ==> Range(lo, hi)[i] < Range(lo, hi)[j]
  {
    if lo <= x <= hi {
      assert Range(lo, hi)[x - lo] == x;
    }
  }

  /** Column `x` lies in the span of the pair starting at the even index `i`. */
  predicate InPair(xs: seq<real>, i: int, x: int)
  {
    0 <= i && i + 1 < |xs| && i % 2 == 0 && Ceil(xs[i]) <= x <= Floor(xs[i + 1])
  }

  /**
   * The columns the span loop visits for the sorted crossings `xs`:
   * `ceil(xs[0]) … floor(xs[1])`, then `ceil(xs[2]) … floor(xs[3])`, and so
   * on. A trailing unpaired crossing reads `undefined` as its partner, whose
   * floor is NaN, so it contributes nothing.
   */
  function Spans(xs: seq<real>): seq<int>
    decreases |xs|
  {
    if |xs| < 2 then [] else Range(Ceil(xs[0]), Floor(xs[1])) + Spans(xs[2..])
  }

  /** A column is visited exactly when it lies between the two crossings of some pair. */
  lemma {:induction false} SpansMembership(xs: seq<real>, x: int)
    ensures x in Spans(xs) <==> exists i :: InPair(xs, i, x)
    decreases |xs|
  {
    if |xs| >= 2 {
      var tail := xs[2..];
      SpansMembership(tail, x);
      RangeMembership(Ceil(xs[0]), Floor(xs[1]), x);
      if x in Spans(xs) {
        if x !in Range(Ceil(xs[0]), Floor(xs[1])) {
          var j :| InPair(tail, j, x);
          assert tail[j] == xs[j + 2] && tail[j + 1] == xs[j + 3];
          assert InPair(xs, j + 2, x);
        } else {
          assert InPair(xs, 0, x);
        }
      }
      if exists i :: InPair(xs, i, x) {
        var i :| InPair(xs, i, x);
        if i >= 2 {
          assert tail[i - 2] == xs[i] && tail[i - 1] == xs[i + 1];
          assert InPair(tail, i - 2, x);
        }
      }
    }
  }

  /** A visited position: column `x` on the scanline `y`, before the write's `- 1` row shift. */
  datatype Cell = Cell(x: int, y: real)

  function Columns(cols: seq<int>, y: real): (r: seq<Cell>)
    ensures |r| == |cols| && forall k :: 0 <= k < |cols| ==> r[k] == Cell(cols[k], y)
  {
    seq(|cols|, k requires 0 <= k < |cols| => Cell(cols[k], y))
  }

  lemma ColumnsMembership(cols: seq<int>, y: real, c: Cell)
    ensures c in Columns(cols, y) <==> c.y == y && c.x in cols
  {
    var r := Columns(cols, y);
    if c in r {
      var k :| 0 <= k < |r| && r[k] == c;
      assert cols[k] == c.x;
    }
    if c.y == y && c.x in cols {
      var k :| 0 <= k < |cols| && cols[k] == c.x;
      assert r[k] == c;
    }
  }

  /** The columns filled on scanline `y`. */
  function RowColumns(pts: seq<Point>, y: real): seq<int>
  {
    Spans(Sort(Crossings(pts, y)))
  }

  /** The scanline `minY + k` is still at or below `maxY`. */
  predicate ScanlineInRange(pts: seq<Point>, k: int)
    requires |pts| > 0
  {
    MinY(pts) + k as real <= MaxY(pts)
  }

  /** How many scanlines the `for (y = minY; y <= maxY; y++)` loop visits. */
  function Scanlines(pts: seq<Point>): (n: nat)
    requires |pts| > 0
    ensures forall k :: 0 <= k ==> (k < n <==> ScanlineInRange(pts, k))
  {
    assert MinY(pts) <= pts[0].y <= MaxY(pts);
    Floor(MaxY(pts) - MinY(pts)) + 1
  }

  /** The cells of the first `n` scanlines `base, base + 1, …`, scanline by scanline, given each scanline's columns. */
  function SweepOf(cols: real -> seq<int>, base: real, n: nat): seq<Cell>
    decreases n
  {
    if n == 0 then [] else SweepOf(cols, base, n - 1) + Columns(cols(base + (n - 1) as real), base + (n - 1) as real)
  }

  /** Cell `c` lies on scanline number `k` after `base`, among that scanline's columns. */
  predicate InRowOf(cols: real -> seq<int>, base: real, k: int, c: Cell)
  {
    c.y == base + k as real && c.x in cols(c.y)
  }

  lemma {:induction false} SweepOfMembership(cols: real -> seq<int>, base: real, n: nat, c: Cell)
    ensures c in SweepOf(cols, base, n) <==> exists k :: 0 <= k < n && InRowOf(cols, base, k, c)
    decreases n
  {
    if n > 0 {
      SweepOfMembership(cols, base, n - 1, c);
      var y := base + (n - 1) as real;
      ColumnsMembership(cols(y), y, c);
      if c in Columns(cols(y), y) {
        assert InRowOf(cols, base, n - 1, c);
      }
    }
  }

  /** The columns the fill visits on each scanline of `pts`, as one function of the scanline. */
  function RowsOf(pts: seq<Point>): real -> seq<int>
  {
    y => RowColumns(pts, y)
  }

  lemma RowsOfApply(pts: seq<Point>, y: real, x: int)
    ensures x in RowsOf(pts)(y) <==> x in RowColumns(pts, y)
  {
    assert RowsOf(pts)(y) == RowColumns(pts, y);
  }

  /** The cells of the fill's scanlines. */
  function Sweep(pts: seq<Point>, n: nat): seq<Cell>
    requires |pts| > 0
  {
    SweepOf(RowsOf(pts), MinY(pts), n)
  }

  /** Every cell the fill visits, in visiting order; a shape with fewer than two points visits none. */
  function Cells(pts: seq<Point>): seq<Cell>
  {
    if |pts| < 2 then [] else Sweep(pts, Scanlines(pts))
  }

  /** `y` is one of `base, base + 1, …` and not above `top`. */
  predicate OnGrid(base: real, top: real, y: real)
  {
    base <= y <= top && Floor(y - base) as real == y - base
  }

  /** `y` is one of the scanlines `minY + k` for a whole `k`, and not above `maxY`. */
  predicate OnScanline(pts: seq<Point>, y: real)
    requires |pts| > 0
  {
    OnGrid(MinY(pts), MaxY(pts), y)
  }

  /** The sweep of the scanlines `base, base + 1, …` up to `top`. */
  function SweepBetween(cols: real -> seq<int>, base: real, top: real): seq<Cell>
    requires base <= top
  {
    SweepOf(cols, base, Floor(top - base) + 1)
  }

  /** Sweeping the scanlines `base, base + 1, …` up to `top` visits exactly the columns of those scanlines. */
  lemma SweepOfExactly(cols: real -> seq<int>, base: real, top: real, c: Cell)
    requires base <= top
    ensures c in SweepBetween(cols, base, top) <==> OnGrid(base, top, c.y) && c.x in cols(c.y)
  {
    var n := Floor(top - base) + 1;
    SweepOfMembership(cols, base, n, c);
    if c in SweepOf(cols, base, n) {
      var k :| 0 <= k < n && InRowOf(cols, base, k, c);
      assert Floor(c.y - base) == k;
    }
    if base <= c.y <= top && Floor(c.y - base) as real == c.y - base && c.x in cols(c.y) {
      assert InRowOf(cols, base, Floor(c.y - base), c);
    }
  }

  /** The fill's cells, as a sweep of the scanlines from `minY` to `maxY`. */
  lemma CellsAsSweep(pts: seq<Point>)
    requires |pts| >= 2
    ensures MinY(pts) <= MaxY(pts)
    ensures Cells(pts) == SweepOf(RowsOf(pts), MinY(pts), Floor(MaxY(pts) - MinY(pts)) + 1)
  {
    assert MinY(pts) <= pts[0].y <= MaxY(pts);
  }

  /**
   * The fill visits exactly the cells `(x, y)` where `y` is a scanline
   * `minY + k` not above `maxY` and `x` is one of the columns of that
   * scanline's spans.
   */
  lemma CellsMembership(pts: seq<Point>, c: Cell)
    ensures c in Cells(pts) <==> |pts| >= 2 && OnScanline(pts, c.y) && c.x in RowColumns(pts, c.y)
  {
    if |pts| >= 2 {
      CellsAsSweep(pts);
      var base, top := MinY(pts), MaxY(pts);
      SweepOfExactly(RowsOf(pts), base, top, c);
      RowsOfApply(pts, c.y, c.x);
      assert OnScanline(pts, c.y) == OnGrid(base, top, c.y);
    }
  }

  /**
   * The cells of the fill, in the terms of the engine's loops: `(x, y)` is
   * visited exactly when `y` is a scanline `minY + k` not above `maxY` and
   * `ceil(s[i]) <= x <= floor(s[i + 1])` for an even `i`, where `s` are the
   * sorted crossings of `y`.
   */
  lemma FillCoverage(pts: seq<Point>, c: Cell)
    ensures c in Cells(pts) <==>
      |pts| >= 2 && OnScanline(pts, c.y) && exists i :: InPair(Sort(Crossings(pts, c.y)), i, c.x)
  {
    CellsMembership(pts, c);
    assert RowColumns(pts, c.y) == Spans(Sort(Crossings(pts, c.y)));
    SpansMembership(Sort(Crossings(pts, c.y)), c.x);
  }

  /** Every crossing lies within the polygon's horizontal extent, on a scanline strictly below its top. */
  lemma CrossingInBox(pts: seq<Point>, y: real, v: real)
    requires v in Crossings(pts, y)
    ensures |pts| > 0
    ensures Lo(Xs(pts)) <= v <= Hi(Xs(pts)) && MinY(pts) < y
  {
    CrossingsMembership(pts, y, v);
    var e :| 0 <= e < |pts| && CrossingAt(pts, y, e, v);
    var p, q := pts[e], Next(pts, e);
    CrossBetween(p, q, y);
    var f := (e + 1) % |pts|;
    assert Xs(pts)[e] == p.x && Xs(pts)[f] == q.x;
    assert Ys(pts)[e] == p.y && Ys(pts)[f] == q.y;
  }

  /**
   * Every cell of the fill lies inside the polygon's bounding box: its column
   * between the least and greatest x of the points, and its scanline above
   * `minY` (the first scanline `minY` itself never crosses an edge) and not
   * above `maxY`.
   */
  lemma CellsInBox(pts: seq<Point>, c: Cell)
    requires c in Cells(pts)
    ensures |pts| >= 2
    ensures MinY(pts) < c.y <= MaxY(pts)
    ensures Lo(Xs(pts)) <= c.x as real <= Hi(Xs(pts))
  {
    CellsMembership(pts, c);
    var cr := Crossings(pts, c.y);
    var s := Sort(cr);
    assert RowColumns(pts, c.y) == Spans(s);
    SpansMembership(s, c.x);
    var i :| InPair(s, i, c.x);
    SortCorrect(cr);
    assert s[i] in multiset(s) && s[i + 1] in multiset(s);
    CrossingInBox(pts, c.y, s[i]);
    CrossingInBox(pts, c.y, s[i + 1]);
  }
}
