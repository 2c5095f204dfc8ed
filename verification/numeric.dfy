/**
 * The JavaScript number conventions the engine relies on (`Math.round`,
 * `Math.ceil`, `Math.floor`, the `%` operator and the clamped byte store of a
 * `Uint8ClampedArray`), restated over Dafny's unbounded integers and exact reals.
 */
module Numeric {

  /** One cell of a `Uint8ClampedArray`: a stored pixel or texel channel. */
  type byte = x: int | 0 <= x < 256

  function Abs(n: int): (r: nat)
    ensures r == n || r == -n
  {
    if n < 0 then -n else n
  }

  function Min(a: real, b: real): (r: real)
    ensures r <= a && r <= b
    ensures r == a || r == b
  {
    if a <= b then a else b
  }

  function Max(a: real, b: real): (r: real)
    ensures a <= r && b <= r
    ensures r == a || r == b
  {
    if a <= b then b else a
  }

  /** `Math.floor`: the greatest integer not above `v`. */
  function Floor(v: real): (n: int)
    ensures n as real <= v < n as real + 1.0
  {
    v.Floor
  }

  /** `Math.ceil`: the least integer not below `v`. */
  function Ceil(v: real): (n: int)
    ensures v <= n as real < v + 1.0
  {
    -((-v).Floor)
  }

  /** `Math.round`: the nearest integer, with halves rounded toward +∞. */
  function Round(v: real): (n: int)
    ensures n as real - 0.5 <= v < n as real + 0.5
  {
    (v + 0.5).Floor
  }

  /**
   * ToUint8Clamp (section 7.1.12 of ECMA-262): what a `Uint8ClampedArray`
   * stores when assigned the number `v`. Values at or below 0 store 0, values
   * at or above 255 store 255, and the rest round to the nearest integer with
   * ties going to the even neighbour. A NaN (which exact reals cannot
   * represent) stores 0; the callers handle that case before calling.
   */
  function ToUint8Clamp(v: real): byte
  {
    if v <= 0.0 then 0
    else if v >= 255.0 then 255
    else
      var f := v.Floor;
      if f as real + 0.5 < v then f + 1
      else if v < f as real + 0.5 then f
      else if f % 2 == 1 then f + 1
      else f
  }

  /** The byte store saturates at 0 and 255 and otherwise rounds to nearest, ties to even. */
  lemma ClampRounds(v: real)
    ensures v <= 0.0 ==> ToUint8Clamp(v) == 0
    ensures v >= 255.0 ==> ToUint8Clamp(v) == 255
    ensures 0.0 < v < 255.0 ==> v - 0.5 <= ToUint8Clamp(v) as real <= v + 0.5
    ensures 0.0 < v < 255.0 && (ToUint8Clamp(v) as real == v - 0.5 || ToUint8Clamp(v) as real == v + 0.5)
            ==> ToUint8Clamp(v) % 2 == 0
  {
  }

  /** A value that already is a byte is stored unchanged. */
  lemma ClampOfByte(b: byte)
    ensures ToUint8Clamp(b as real) == b
  {
  }

  /** The byte store is monotone: a larger number never stores a smaller byte. */
  lemma ClampMonotone(v: real, w: real)
    requires v <= w
    ensures ToUint8Clamp(v) <= ToUint8Clamp(w)
  {
    if 0.0 < v && w < 255.0 {
      var f, g := v.Floor, w.Floor;
      assert f <= g;
      if f < g {
        assert ToUint8Clamp(v) <= f + 1 <= g <= ToUint8Clamp(w);
      }
    }
  }

  /**
   * JavaScript `%` on integers: the remainder of the division truncated
   * toward zero. It has the sign of the dividend, so it differs from Dafny's
   * Euclidean `%` exactly when the dividend is negative and not a multiple.
   */
  function TruncRem(a: int, b: int): (r: int)
    requires b > 0
    ensures -b < r < b
    ensures a >= 0 ==> r >= 0
    ensures a <= 0 ==> r <= 0
  {
    if a >= 0 then a % b else -((-a) % b)
  }

  /** The quotient that goes with `TruncRem`: division rounded toward zero. */
  function TruncDiv(a: int, b: int): int
    requires b > 0
  {
    if a >= 0 then a / b else -((-a) / b)
  }

  /** `TruncRem` is the remainder of `TruncDiv`, and on non-negative operands agrees with `%`. */
  lemma TruncDivision(a: int, b: int)
    requires b > 0
    ensures a == TruncDiv(a, b) * b + TruncRem(a, b)
    ensures a >= 0 ==> TruncRem(a, b) == a % b
  {
    if a >= 0 {
      assert a == (a / b) * b + a % b;
    } else {
      var q, m := (-a) / b, (-a) % b;
      assert -a == q * b + m;
      assert TruncDiv(a, b) * b == -(q * b);
    }
  }

  /** A product of non-negative reals is non-negative. */
  lemma MulNonNegative(x: real, y: real)
    requires 0.0 <= x && 0.0 <= y
    ensures 0.0 <= x * y
  {
  }

  /** Multiplication by a non-negative factor preserves `<=`. */
  lemma MulMonotone(a: int, b: int, c: int)
    requires a <= b && 0 <= c
    ensures a * c <= b * c
  {
  }
}
