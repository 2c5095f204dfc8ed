/**
 * `getImagePixel` and `DrawTexturedRectangle`: reading a texel of a loaded
 * image with the engine's wrap-around index, and filling a matrix-mapped unit
 * square with texels looked up through the inverse matrix.
 */
module Textures {
  import opened Numeric
  import opened Geometry
  import opened PixelBuffer
  import opened Scanline
  import opened Translation
  import opened Shapes

  /** A loaded image: its size and its RGBA bytes, row by row, four per pixel. */
  datatype Image = Image(width: int, height: int, data: seq<byte>)
  {
    predicate Valid()
    {
      0 < width && 0 < height && |data| == width * height * 4
    }
  }

  /** `(x % width) * 4 + (y % height) * width * 4`, with JavaScript's truncating `%`. */
  function TexelIndex(img: Image, x: int, y: int): int
    requires img.Valid()
  {
    TruncRem(x, img.width) * 4 + TruncRem(y, img.height) * img.width * 4
  }

  /** The index stays within `4·w·h - 4` of zero, so every `abs(index + k)` for `k < 4` is a byte of the image. */
  lemma TexelIndexRange(img: Image, x: int, y: int)
    requires img.Valid()
    ensures -(img.width * img.height * 4 - 4) <= TexelIndex(img, x, y) <= img.width * img.height * 4 - 4
  {
    var w, h := img.width, img.height;
    var rx, ry := TruncRem(x, w), TruncRem(y, h);
    RowOffsetRange(ry, w, h);
    assert TexelIndex(img, x, y) == rx * 4 + (ry * w) * 4;
  }

  /** A row remainder `ry` with `|ry| < h` starts at most `w·h - w` away from zero. */
  lemma RowOffsetRange(ry: int, w: int, h: int)
    requires 0 < w && -(h - 1) <= ry <= h - 1
    ensures -(w * h - w) <= ry * w <= w * h - w
  {
    MulMonotone(ry, h - 1, w);
    MulMonotone(-ry, h - 1, w);
    assert (h - 1) * w == w * h - w;
    assert (-ry) * w == -(ry * w);
  }

  /** The byte of the image at `abs(i)`. */
  function ByteAt(img: Image, i: int): byte
    requires img.Valid() && Abs(i) < |img.data|
  {
    img.data[Abs(i)]
  }

  /**
   * `getImagePixel(image, x, y)`: the four bytes at `abs(index)`,
   * `abs(index + 1)`, `abs(index + 2)` and `abs(index + 3)`, as a colour with
   * every channel present.
   */
  function Sample(img: Image, x: int, y: int): (c: Color)
    requires img.Valid()
    ensures c.r.Some? && c.g.Some? && c.b.Some? && 0.0 <= c.a < 256.0
  {
    TexelIndexRange(img, x, y);
    var i := TexelIndex(img, x, y);
    Color(Some(ByteAt(img, i) as real), Some(ByteAt(img, i + 1) as real), Some(ByteAt(img, i + 2) as real),
          ByteAt(img, i + 3) as real)
  }

  /** The pixel at column `x` and row `y` of the image, read straight from its bytes. */
  function TexelAt(img: Image, x: int, y: int): Color
    requires img.Valid() && 0 <= x < img.width && 0 <= y < img.height
  {
    MulMonotone(y, img.height - 1, img.width);
    var i := (y * img.width + x) * 4;
    Color(Some(img.data[i] as real), Some(img.data[i + 1] as real), Some(img.data[i + 2] as real), img.data[i + 3] as real)
  }

  /** For non-negative coordinates the lookup wraps around: it reads the pixel at `(x mod w, y mod h)`. */
  lemma SampleWraps(img: Image, x: int, y: int)
    requires img.Valid() && 0 <= x && 0 <= y
    ensures Sample(img, x, y) == TexelAt(img, x % img.width, y % img.height)
  {
    TruncDivision(x, img.width);
    TruncDivision(y, img.height);
    var i := TexelIndex(img, x, y);
    assert i == ((y % img.height) * img.width + x % img.width) * 4;
  }

  /** Adding the divisor does not change the remainder. */
  lemma ModPeriod(a: int, b: int)
    requires b > 0
    ensures (a + b) % b == a % b
  {
    var q, r := a / b, a % b;
    assert a == q * b + r;
    assert a + b == (q + 1) * b + r;
    var q2, r2 := (a + b) / b, (a + b) % b;
    assert a + b == q2 * b + r2;
    if q2 > q + 1 {
      MulMonotone(q + 2, q2, b);
      assert false;
    } else if q2 < q + 1 {
      MulMonotone(q2, q, b);
      assert false;
    }
  }

  /** Hence on non-negative coordinates the lookup repeats with period `w` across and `h` down. */
  lemma SamplePeriodic(img: Image, x: int, y: int)
    requires img.Valid() && 0 <= x && 0 <= y
    ensures Sample(img, x + img.width, y) == Sample(img, x, y)
    ensures Sample(img, x, y + img.height) == Sample(img, x, y)
  {
    SampleWraps(img, x, y);
    SampleWraps(img, x + img.width, y);
    SampleWraps(img, x, y + img.height);
    ModPeriod(x, img.width);
    ModPeriod(y, img.height);
  }

  /** On non-positive coordinates the lookup repeats too, with period `w` leftwards and `h` upwards. */
  lemma SamplePeriodicNonPositive(img: Image, x: int, y: int)
    requires img.Valid() && x <= 0 && y <= 0
    ensures Sample(img, x - img.width, y) == Sample(img, x, y)
    ensures Sample(img, x, y - img.height) == Sample(img, x, y)
  {
    var w, h := img.width, img.height;
    ModPeriod(-x, w);
    ModPeriod(-y, h);
    assert TruncRem(x - w, w) == TruncRem(x, w);
    assert TruncRem(y - h, h) == TruncRem(y, h);
    assert TexelIndex(img, x - w, y) == TexelIndex(img, x, y);
    assert TexelIndex(img, x, y - h) == TexelIndex(img, x, y);
  }

  /**
   * The two periodic halves do not join: in a 2 × 1 image with bytes 0..7,
   * column -1 reads bytes 4, 3, 2, 1 while column 1 reads bytes 4, 5, 6, 7.
   */
  lemma SampleNotPeriodicAcrossZero()
    ensures var img := Image(2, 1, [0, 1, 2, 3, 4, 5, 6, 7]);
      img.Valid() && Sample(img, -1, 0) != Sample(img, -1 + img.width, 0)
  {
    var img := Image(2, 1, [0, 1, 2, 3, 4, 5, 6, 7]);
    assert TexelIndex(img, -1, 0) == -4;
    assert TexelIndex(img, 1, 0) == 4;
    assert Sample(img, -1, 0).g == Some(3 as real);
    assert Sample(img, 1, 0).g == Some(5 as real);
  }

  /**
   * The pixel the engine's index points at, `index / 4`, counted row by row
   * from the start of the data. It is negative when the truncated remainders
   * make the whole index negative.
   */
  function PixelNumber(img: Image, x: int, y: int): int
    requires img.Valid()
  {
    TruncRem(y, img.height) * img.width + TruncRem(x, img.width)
  }

  /** When the index points at the pixel in column `col` of row `row`, that pixel is read with its channels in order. */
  lemma SampleAt(img: Image, x: int, y: int, col: int, row: int)
    requires img.Valid() && 0 <= col < img.width && 0 <= row < img.height
    requires PixelNumber(img, x, y) == row * img.width + col
    ensures Sample(img, x, y) == TexelAt(img, col, row)
  {
    var i, j := TexelIndex(img, x, y), (row * img.width + col) * 4;
    assert i == j;
    assert 0 <= j && j + 4 <= |img.data| by {
      MulMonotone(row, img.height - 1, img.width);
      assert (img.height - 1) * img.width == img.width * img.height - img.width;
    }
    assert TexelAt(img, col, row) == Color(Some(img.data[j] as real), Some(img.data[j + 1] as real),
                                           Some(img.data[j + 2] as real), img.data[j + 3] as real);
    assert Sample(img, x, y) == Color(Some(img.data[i] as real), Some(img.data[i + 1] as real),
                                      Some(img.data[i + 2] as real), img.data[i + 3] as real);
  }

  /** The pixel number stays strictly within `w·h` of zero. */
  lemma PixelNumberRange(img: Image, x: int, y: int)
    requires img.Valid()
    ensures -(img.width * img.height) < PixelNumber(img, x, y) < img.width * img.height
  {
    TexelIndexRange(img, x, y);
    assert TexelIndex(img, x, y) == 4 * PixelNumber(img, x, y);
  }

  /** A pixel number inside the image splits into a row below `h` and a column below `w`. */
  lemma RowAndColumn(p: int, w: int, h: int)
    requires 0 < w && 0 <= p < w * h
    ensures 0 <= p / w < h && 0 <= p % w < w && p == (p / w) * w + p % w
  {
    if p / w >= h {
      MulMonotone(h, p / w, w);
    }
  }

  /** A non-negative index always lands inside the image and reads the pixel it points at. */
  lemma SampleForward(img: Image, x: int, y: int)
    requires img.Valid() && 0 <= PixelNumber(img, x, y)
    ensures PixelNumber(img, x, y) < img.width * img.height
    ensures 0 <= PixelNumber(img, x, y) / img.width < img.height
    ensures var p := PixelNumber(img, x, y);
      Sample(img, x, y) == TexelAt(img, p % img.width, p / img.width)
  {
    var p := PixelNumber(img, x, y);
    PixelNumberRange(img, x, y);
    RowAndColumn(p, img.width, img.height);
    SampleAt(img, x, y, p % img.width, p / img.width);
  }

  /**
   * A negative index `-4·m` is read backwards through `abs`: red is the first
   * byte of pixel `m`, and green, blue and alpha are the alpha, blue and green
   * bytes of pixel `m - 1`.
   */
  lemma SampleMirrored(img: Image, x: int, y: int)
    requires img.Valid() && PixelNumber(img, x, y) < 0
    ensures var m := -PixelNumber(img, x, y);
      && 0 < m < img.width * img.height
      && Sample(img, x, y) == Color(Some(img.data[4 * m] as real), Some(img.data[4 * m - 1] as real),
                                    Some(img.data[4 * m - 2] as real), img.data[4 * m - 3] as real)
  {
    PixelNumberRange(img, x, y);
    assert TexelIndex(img, x, y) == 4 * PixelNumber(img, x, y);
  }

  /**
   * A negative column `x` that is not a multiple of the width, with `k = (-x) mod w`
   * and a non-negative row `y`. The remainder of `x` is `-k`, so the index
   * steps `k` pixels back from the start of image row `y mod h`.
   * - On rows `y mod h >= 1` that is column `w - k` of the row above, read in channel order.
   * - On row `y mod h == 0` the index is negative, and the channels come out mirrored.
   */
  lemma NegativeColumn(img: Image, x: int, y: int)
    requires img.Valid() && x < 0 && 0 <= y && (-x) % img.width != 0
    ensures var w, h, k := img.width, img.height, (-x) % img.width;
      && (y % h >= 1 ==> Sample(img, x, y) == TexelAt(img, w - k, y % h - 1))
      && 0 < k < w * h
      && (y % h == 0 ==>
            Sample(img, x, y) == Color(Some(img.data[4 * k] as real), Some(img.data[4 * k - 1] as real),
                                       Some(img.data[4 * k - 2] as real), img.data[4 * k - 3] as real))
  {
    var w, h, k := img.width, img.height, (-x) % img.width;
    var ry := y % h;
    TruncDivision(y, h);
    assert PixelNumber(img, x, y) == ry * w - k;
    if ry >= 1 {
      assert ry * w - k == (ry - 1) * w + (w - k);
      SampleAt(img, x, y, w - k, ry - 1);
    } else {
      SampleMirrored(img, x, y);
    }
    MulMonotone(1, h, w);
  }

  /** The optional settings of a textured rectangle, each possibly left out. */
  datatype TexOptions = TexOptions(matrix: Option<Mat2>, sizeX: Option<real>, sizeY: Option<real>,
                                   u: Option<int>, v: Option<int>)

  /** The settings once defaults are filled in. */
  datatype Settings = Settings(matrix: Mat2, sizeX: real, sizeY: real, u: int, v: int)

  function OrElse<T>(o: Option<T>, default: T): T
  {
    if o.Some? then o.value else default
  }

  /** Missing settings default to the identity matrix, sizes 1 and offsets 0; given ones are kept. */
  function Resolve(o: TexOptions): (s: Settings)
    ensures o.matrix == None ==> s.matrix == Identity
    ensures o.sizeX == None ==> s.sizeX == 1.0
    ensures o.sizeY == None ==> s.sizeY == 1.0
    ensures o.u == None ==> s.u == 0
    ensures o.v == None ==> s.v == 0
    ensures o.matrix.Some? ==> s.matrix == o.matrix.value
    ensures o.sizeX.Some? ==> s.sizeX == o.sizeX.value
    ensures o.sizeY.Some? ==> s.sizeY == o.sizeY.value
    ensures o.u.Some? ==> s.u == o.u.value
    ensures o.v.Some? ==> s.v == o.v.value
  {
    Settings(OrElse(o.matrix, Identity), OrElse(o.sizeX, 1.0), OrElse(o.sizeY, 1.0), OrElse(o.u, 0), OrElse(o.v, 0))
  }

  /**
   * The texel a local position `p` samples: `C = M⁻¹·p`, then
   * `round(C.x · (w - 1) · sizeX) + u` across and `round(C.y · (h - 1) · sizeY) + v` down.
   */
  function TexCoord(img: Image, s: Settings, p: Point): (int, int)
    requires Det(s.matrix) != 0.0
  {
    var c := Apply(Inverse(s.matrix), p);
    (Round(c.x * (img.width - 1) as real * s.sizeX) + s.u, Round(c.y * (img.height - 1) as real * s.sizeY) + s.v)
  }

  /**
   * The local position `M·(s, t)` samples the texel
   * `(round(s · (w - 1) · sizeX) + u, round(t · (h - 1) · sizeY) + v)`: the
   * unit square's parameters come back exactly through the inverse.
   */
  lemma TexCoordOfImage(img: Image, st: Settings, s: real, t: real)
    requires Det(st.matrix) != 0.0
    ensures TexCoord(img, st, Apply(st.matrix, Point(s, t))) ==
      (Round(s * (img.width - 1) as real * st.sizeX) + st.u, Round(t * (img.height - 1) as real * st.sizeY) + st.v)
  {
    InverseRoundTrip(st.matrix, Point(s, t));
    var p := Apply(st.matrix, Point(s, t));
    var c := Apply(Inverse(st.matrix), p);
    assert c.x == s && c.y == t;
    assert c.x * (img.width - 1) as real * st.sizeX == s * (img.width - 1) as real * st.sizeX;
    assert c.y * (img.height - 1) as real * st.sizeY == t * (img.height - 1) as real * st.sizeY;
    var tc := TexCoord(img, st, p);
    assert tc.0 == Round(s * (img.width - 1) as real * st.sizeX) + st.u;
    assert tc.1 == Round(t * (img.height - 1) as real * st.sizeY) + st.v;
  }

  /** The corners the textured fill scans: the unit square through the matrix, not translated. */
  function LocalPoints(s: Settings): seq<Point>
  {
    MapPoints(s.matrix, UnitSquare)
  }

  /** The write for one visited local cell: at `(x1 + x, y1 + y - 1)`, in the colour of the texel it samples. */
  function TexturedWrite(x1: real, y1: real, img: Image, s: Settings, cell: Cell): (w: Write)
    requires img.Valid() && Det(s.matrix) != 0.0
    ensures 0.0 <= w.color.a
  {
    var (tx, ty) := TexCoord(img, s, Point(cell.x as real, cell.y));
    Write(x1 + cell.x as real, y1 + cell.y - 1.0, Sample(img, tx, ty))
  }

  /** The writes of `DrawTexturedRectangle`, one per cell of the local fill, in visiting order. */
  function TexturedWrites(x1: real, y1: real, img: Image, s: Settings): (ws: seq<Write>)
    requires img.Valid() && Det(s.matrix) != 0.0
    ensures |ws| == |Cells(LocalPoints(s))|
    ensures forall k :: 0 <= k < |ws| ==> ws[k] == TexturedWrite(x1, y1, img, s, Cells(LocalPoints(s))[k])
  {
    var cells := Cells(LocalPoints(s));
    seq(|cells|, k requires 0 <= k < |cells| => TexturedWrite(x1, y1, img, s, cells[k]))
  }

  /**
   * `DrawTexturedRectangle(x1, y1, image, optional)` for a loaded image and
   * an invertible matrix: defaults filled in, then the textured writes
   * applied in order.
   */
  function DrawTexturedRectangle(buf: Buffer, x1: real, y1: real, img: Image, o: TexOptions): (r: Buffer)
    requires buf.Valid() && img.Valid() && Det(Resolve(o).matrix) != 0.0
    ensures r.Valid() && r.width == buf.width && r.height == buf.height
  {
    Render(buf, TexturedWrites(x1, y1, img, Resolve(o)))
  }

  /**
   * Every cell the local fill visits is written at `(x1 + x, y1 + y - 1)`
   * with the texel its preimage under the matrix selects: a cell at
   * `M·(s, t)` gets the texel `(round(s·(w-1)·sizeX) + u, round(t·(h-1)·sizeY) + v)`.
   */
  lemma TexturedCell(x1: real, y1: real, img: Image, st: Settings, k: int, s: real, t: real)
    requires img.Valid() && Det(st.matrix) != 0.0
    requires 0 <= k < |Cells(LocalPoints(st))|
    requires Point(Cells(LocalPoints(st))[k].x as real, Cells(LocalPoints(st))[k].y) == Apply(st.matrix, Point(s, t))
    ensures var cell, w := Cells(LocalPoints(st))[k], TexturedWrites(x1, y1, img, st)[k];
      w.x == x1 + cell.x as real && w.y == y1 + cell.y - 1.0 &&
      w.color == Sample(img, Round(s * (img.width - 1) as real * st.sizeX) + st.u,
                             Round(t * (img.height - 1) as real * st.sizeY) + st.v)
  {
    var cell := Cells(LocalPoints(st))[k];
    TexturedWriteAt(x1, y1, img, st, cell, s, t);
  }

  /** The write for one cell lying at `M·(s, t)`: its position and the texel it samples. */
  lemma TexturedWriteAt(x1: real, y1: real, img: Image, st: Settings, cell: Cell, s: real, t: real)
    requires img.Valid() && Det(st.matrix) != 0.0
    requires Point(cell.x as real, cell.y) == Apply(st.matrix, Point(s, t))
    ensures var w := TexturedWrite(x1, y1, img, st, cell);
      w.x == x1 + cell.x as real && w.y == y1 + cell.y - 1.0 &&
      w.color == Sample(img, Round(s * (img.width - 1) as real * st.sizeX) + st.u,
                             Round(t * (img.height - 1) as real * st.sizeY) + st.v)
  {
    TexCoordOfImage(img, st, s, t);
  }

  /**
   * At a whole-pixel `x1`, the textured rectangle writes exactly the pixel
   * positions, in the same order, that `DrawRectangle` writes for the same
   * matrix at `(x1, y1)`: scanning the local corners and adding `(x1, y1)`
   * at write time is the same as scanning the moved corners.
   */
  lemma TexturedFootprint(x1: int, y1: real, img: Image, s: Settings, c: Color)
    requires img.Valid() && Det(s.matrix) != 0.0
    ensures var tw, fw := TexturedWrites(x1 as real, y1, img, s), FillWrites(RectanglePoints(x1 as real, y1, s.matrix), c);
      |tw| == |fw| && forall k :: 0 <= k < |tw| ==> tw[k].x == fw[k].x && tw[k].y == fw[k].y
  {
    var local := LocalPoints(s);
    CellsShift(local, x1, y1);
    assert RectanglePoints(x1 as real, y1, s.matrix) == Translate(local, x1 as real, y1);
  }
}
