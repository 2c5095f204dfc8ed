/**
 * Points, 2×2 matrices and the unit square that the rectangle operations
 * push through a matrix. The engine multiplies with mathjs (`math.multiply`,
 * `math.inv`); here the products and the inverse are written out.
 */
module Geometry {

  /** A position in buffer space; not necessarily on the pixel grid. */
  datatype Point = Point(x: real, y: real)

  /** The matrix [[a, b], [c, d]], in the row-major nesting the engine passes to mathjs. */
  datatype Mat2 = Mat2(a: real, b: real, c: real, d: real)

  /** The default matrix of a textured rectangle, `[[1, 0], [0, 1]]`. */
  const Identity: Mat2 := Mat2(1.0, 0.0, 0.0, 1.0)

  /** `math.multiply(m, [[p.x], [p.y]])`, read back as a point. */
  function Apply(m: Mat2, p: Point): Point
  {
    Point(m.a * p.x + m.b * p.y, m.c * p.x + m.d * p.y)
  }

  /** The matrix product `l · r`. */
  function Mul(l: Mat2, r: Mat2): Mat2
  {
    Mat2(l.a * r.a + l.b * r.c, l.a * r.b + l.b * r.d,
         l.c * r.a + l.d * r.c, l.c * r.b + l.d * r.d)
  }

  function Det(m: Mat2): real
  {
    m.a * m.d - m.b * m.c
  }

  /** Dividing two terms by the same `k` divides their weighted sum by `k`. */
  lemma ScaledSum(p: real, q: real, s: real, t: real, k: real)
    requires k != 0.0
    ensures (p / k) * s + (q / k) * t == (p * s + q * t) / k
  {
    assert (p / k) * s == (p * s) / k;
    assert (q / k) * t == (q * t) / k;
  }

  /** The adjugate divided by the determinant. */
  function Adjugate(m: Mat2, k: real): Mat2
    requires k != 0.0
  {
    Mat2(m.d / k, -m.b / k, -m.c / k, m.a / k)
  }

  lemma AdjugateLeft(m: Mat2)
    requires Det(m) != 0.0
    ensures Mul(Adjugate(m, Det(m)), m) == Identity
  {
    var k := Det(m);
    ScaledSum(m.d, -m.b, m.a, m.c, k);
    ScaledSum(m.d, -m.b, m.b, m.d, k);
    ScaledSum(-m.c, m.a, m.a, m.c, k);
    ScaledSum(-m.c, m.a, m.b, m.d, k);
    assert m.d * m.a + -m.b * m.c == k && m.d * m.b + -m.b * m.d == 0.0;
    assert -m.c * m.a + m.a * m.c == 0.0 && -m.c * m.b + m.a * m.d == k;
    assert k / k == 1.0 && 0.0 / k == 0.0;
  }

  lemma AdjugateRight(m: Mat2)
    requires Det(m) != 0.0
    ensures Mul(m, Adjugate(m, Det(m))) == Identity
  {
    var k := Det(m);
    ScaledSum(m.d, -m.c, m.a, m.b, k);
    ScaledSum(-m.b, m.a, m.a, m.b, k);
    ScaledSum(m.d, -m.c, m.c, m.d, k);
    ScaledSum(-m.b, m.a, m.c, m.d, k);
    assert m.d * m.a + -m.c * m.b == k && -m.b * m.a + m.a * m.b == 0.0;
    assert m.d * m.c + -m.c * m.d == 0.0 && -m.b * m.c + m.a * m.d == k;
    assert k / k == 1.0 && 0.0 / k == 0.0;
    assert m.a * (m.d / k) + m.b * (-m.c / k) == (m.d / k) * m.a + (-m.c / k) * m.b;
    assert m.a * (-m.b / k) + m.b * (m.a / k) == (-m.b / k) * m.a + (m.a / k) * m.b;
    assert m.c * (m.d / k) + m.d * (-m.c / k) == (m.d / k) * m.c + (-m.c / k) * m.d;
    assert m.c * (-m.b / k) + m.d * (m.a / k) == (-m.b / k) * m.c + (m.a / k) * m.d;
  }

  /** `math.inv(m)` for an invertible 2×2 matrix, by the adjugate formula. */
  function Inverse(m: Mat2): (r: Mat2)
    requires Det(m) != 0.0
    ensures Mul(r, m) == Identity
    ensures Mul(m, r) == Identity
  {
    AdjugateLeft(m);
    AdjugateRight(m);
    Adjugate(m, Det(m))
  }

  /** Applying a product is applying its factors in turn. */
  lemma ApplyMul(l: Mat2, r: Mat2, p: Point)
    ensures Apply(Mul(l, r), p) == Apply(l, Apply(r, p))
  {
    assert (l.a * r.a + l.b * r.c) * p.x + (l.a * r.b + l.b * r.d) * p.y
        == l.a * (r.a * p.x + r.b * p.y) + l.b * (r.c * p.x + r.d * p.y);
    assert (l.c * r.a + l.d * r.c) * p.x + (l.c * r.b + l.d * r.d) * p.y
        == l.c * (r.a * p.x + r.b * p.y) + l.d * (r.c * p.x + r.d * p.y);
  }

  /** Mapping a point forward and then back through the inverse (or the other way round) returns it. */
  lemma InverseRoundTrip(m: Mat2, p: Point)
    requires Det(m) != 0.0
    ensures Apply(Inverse(m), Apply(m, p)) == p
    ensures Apply(m, Apply(Inverse(m), p)) == p
  {
    ApplyMul(Inverse(m), m, p);
    ApplyMul(m, Inverse(m), p);
  }

  /** The corners of the unit square in the order the engine lists them: (0,0), (0,1), (1,1), (1,0). */
  const UnitSquare: seq<Point> := [Point(0.0, 0.0), Point(0.0, 1.0), Point(1.0, 1.0), Point(1.0, 0.0)]

  /** Every point of `pts` pushed through `m`. */
  function MapPoints(m: Mat2, pts: seq<Point>): (r: seq<Point>)
    ensures |r| == |pts|
    ensures forall i :: 0 <= i < |pts| ==> r[i] == Apply(m, pts[i])
  {
    seq(|pts|, i requires 0 <= i < |pts| => Apply(m, pts[i]))
  }

  /** Every point of `pts` moved by `(dx, dy)`. */
  function Translate(pts: seq<Point>, dx: real, dy: real): (r: seq<Point>)
    ensures |r| == |pts|
    ensures forall i :: 0 <= i < |pts| ==> r[i] == Point(pts[i].x + dx, pts[i].y + dy)
  {
    seq(|pts|, i requires 0 <= i < |pts| => Point(pts[i].x + dx, pts[i].y + dy))
  }
}
