/**
 * The engine's pixel buffer (the `ImageData` behind the canvas) and its one
 * mutating primitive, `DrawPixel`. Every drawing operation of the engine is a
 * sequence of `DrawPixel` calls; here such a sequence is a list of `Write`
 * requests and `Render` applies it to a buffer value.
 */
module PixelBuffer {
  import opened Numeric

  /** A value that may be missing, as an optional field of a JavaScript object. */
  datatype Option<T> = None | Some(value: T)

  /**
   * A drawing colour. `r`, `g` and `b` may be missing (they then count as 0);
   * `a` is the alpha on the 0–255 scale.
   */
  datatype Color = Color(r: Option<real>, g: Option<real>, b: Option<real>, a: real)

  /** `channel || 0`: a missing (or zero) channel reads as 0. */
  function OrZero(o: Option<real>): real
  {
    match o
    case Some(v) => v
    case None => 0.0
  }

  /** The four stored bytes of one pixel. */
  datatype Rgba = Rgba(r: byte, g: byte, b: byte, a: byte)

  /**
   * A `width`×`height` RGBA image stored row-major, four bytes per pixel,
   * as a browser `ImageData` stores it.
   */
  datatype Buffer = Buffer(width: int, height: int, data: seq<byte>)
  {
    predicate Valid()
    {
      0 < width && 0 < height && |data| == width * height * 4
    }

    predicate InBounds(x: int, y: int)
    {
      0 <= x < width && 0 <= y < height
    }
  }

  /** Position of the first byte of pixel `(x, y)`; its four channels follow it. */
  function Offset(buf: Buffer, x: int, y: int): (i: nat)
    requires buf.Valid() && buf.InBounds(x, y)
    ensures i + 4 <= |buf.data|
  {
    MulMonotone(y, buf.height - 1, buf.width);
    (y * buf.width + x) * 4
  }

  /** Distinct pixels own disjoint groups of four bytes. */
  lemma OffsetsDisjoint(buf: Buffer, x: int, y: int, x': int, y': int)
    requires buf.Valid() && buf.InBounds(x, y) && buf.InBounds(x', y')
    requires x != x' || y != y'
    ensures Offset(buf, x, y) + 4 <= Offset(buf, x', y') || Offset(buf, x', y') + 4 <= Offset(buf, x, y)
  {
    var w := buf.width;
    if y < y' {
      MulMonotone(y + 1, y', w);
      assert (y + 1) * w == y * w + w;
      assert y * w + x + 1 <= y' * w + x';
    } else if y' < y {
      MulMonotone(y' + 1, y, w);
      assert (y' + 1) * w == y' * w + w;
      assert y' * w + x' + 1 <= y * w + x;
    }
  }

  /** The pixel stored at `(x, y)`. */
  function Get(buf: Buffer, x: int, y: int): Rgba
    requires buf.Valid() && buf.InBounds(x, y)
  {
    var i := Offset(buf, x, y);
    Rgba(buf.data[i], buf.data[i + 1], buf.data[i + 2], buf.data[i + 3])
  }

  /**
   * `GetScreenGrid` (`createImageData(width, height)`): a fresh buffer of the
   * given size in which every pixel is transparent black.
   */
  function NewBuffer(width: int, height: int): (r: Buffer)
    requires 0 < width && 0 < height
    ensures r.Valid() && r.width == width && r.height == height
    ensures forall x, y :: r.InBounds(x, y) ==> Get(r, x, y) == Rgba(0, 0, 0, 0)
  {
    Buffer(width, height, seq(width * height * 4, _ => 0))
  }

  /**
   * `updateScreenSize`: the buffer is replaced by a fresh one of the new size;
   * nothing of the old contents survives.
   */
  function UpdateScreenSize(buf: Buffer, width: int, height: int): (r: Buffer)
    requires 0 < width && 0 < height
    ensures r.Valid() && r.width == width && r.height == height
    ensures forall x, y :: r.InBounds(x, y) ==> Get(r, x, y) == Rgba(0, 0, 0, 0)
  {
    NewBuffer(width, height)
  }

  /**
   * The four numbers `DrawPixel` assigns to a pixel's channels. The
   * `Uint8ClampedArray` clamps and rounds each of them when it stores it.
   */
  datatype Assigned = Assigned(r: real, g: real, b: real, a: real)

  /** The bytes the clamped array keeps of four assigned numbers. */
  function Store(v: Assigned): Rgba
  {
    Rgba(ToUint8Clamp(v.r), ToUint8Clamp(v.g), ToUint8Clamp(v.b), ToUint8Clamp(v.a))
  }

  /** The numbers an opaque write (`a >= 255`) assigns: the colour itself, missing channels as 0. */
  function OpaqueValues(c: Color): Assigned
  {
    Assigned(OrZero(c.r), OrZero(c.g), OrZero(c.b), c.a)
  }

  /** The bytes an opaque write stores, whatever was there before. */
  function Opaque(c: Color): Rgba
  {
    Store(OpaqueValues(c))
  }

  /** The coverage of source-over: `sa + da·(1 − sa)`, for alphas on the 0–1 scale. */
  function NewAlpha(sa: real, da: real): real
  {
    sa + da * (1.0 - sa)
  }

  /**
   * One colour channel of straight-alpha source-over: the premultiplied
   * contributions of source and destination, divided by the new alpha `na`.
   * When `na` is 0 the engine computes 0/0; the NaN it assigns stores as 0,
   * which is what assigning 0 stores.
   */
  function CompositeChannel(src: real, dst: real, sa: real, da: real, na: real): real
  {
    if na == 0.0 then 0.0 else (src * sa + dst * da * (1.0 - sa)) / na
  }

  /** The numbers a translucent write assigns over the stored pixel `dst`. */
  function BlendValues(c: Color, dst: Rgba): Assigned
    requires 0.0 <= c.a < 255.0
  {
    var sa := c.a / 255.0;
    var da := dst.a as real / 255.0;
    var na := NewAlpha(sa, da);
    Assigned(CompositeChannel(OrZero(c.r), dst.r as real, sa, da, na),
             CompositeChannel(OrZero(c.g), dst.g as real, sa, da, na),
             CompositeChannel(OrZero(c.b), dst.b as real, sa, da, na),
             na * 255.0)
  }

  /** The bytes a translucent write stores over `dst`. */
  function Blend(c: Color, dst: Rgba): Rgba
    requires 0.0 <= c.a < 255.0
  {
    Store(BlendValues(c, dst))
  }

  /**
   * `DrawPixel`: round the coordinates; outside the buffer do nothing; inside,
   * replace the pixel (opaque colour) or composite over it (translucent colour).
   * The engine reads the destination channels before it overwrites them, and
   * each channel depends only on itself and the alpha (written last), so
   * replacing the four bytes at once is the same.
   */
  function DrawPixel(buf: Buffer, x: real, y: real, c: Color): (r: Buffer)
    requires buf.Valid() && 0.0 <= c.a
    ensures r.Valid() && r.width == buf.width && r.height == buf.height
    ensures !buf.InBounds(Round(x), Round(y)) ==> r == buf
    ensures buf.InBounds(Round(x), Round(y)) ==>
      var i := Offset(buf, Round(x), Round(y));
      forall k :: 0 <= k < |buf.data| && !(i <= k < i + 4) ==> r.data[k] == buf.data[k]
    ensures buf.InBounds(Round(x), Round(y)) && 255.0 <= c.a ==>
      Get(r, Round(x), Round(y)) == Opaque(c)
    ensures buf.InBounds(Round(x), Round(y)) && c.a < 255.0 ==>
      Get(r, Round(x), Round(y)) == Blend(c, Get(buf, Round(x), Round(y)))
  {
    var px, py := Round(x), Round(y);
    if !buf.InBounds(px, py) then buf
    else
      var i := Offset(buf, px, py);
      var v := if 255.0 <= c.a then Opaque(c) else Blend(c, Get(buf, px, py));
      buf.(data := buf.data[i := v.r][i + 1 := v.g][i + 2 := v.b][i + 3 := v.a])
  }

  /** A write to one pixel leaves every other pixel as it was. */
  lemma DrawPixelElsewhere(buf: Buffer, x: real, y: real, c: Color, qx: int, qy: int)
    requires buf.Valid() && 0.0 <= c.a && buf.InBounds(qx, qy)
    requires qx != Round(x) || qy != Round(y)
    ensures Get(DrawPixel(buf, x, y, c), qx, qy) == Get(buf, qx, qy)
  {
    if buf.InBounds(Round(x), Round(y)) {
      OffsetsDisjoint(buf, qx, qy, Round(x), Round(y));
    }
  }

  /** An opaque colour given as bytes reads back exactly, whatever the pixel held. */
  lemma OpaqueOverwrite(buf: Buffer, x: real, y: real, r: byte, g: byte, b: byte)
    requires buf.Valid() && buf.InBounds(Round(x), Round(y))
    ensures Get(DrawPixel(buf, x, y, Color(Some(r as real), Some(g as real), Some(b as real), 255.0)), Round(x), Round(y))
         == Rgba(r, g, b, 255)
  {
    ClampOfByte(r);
    ClampOfByte(g);
    ClampOfByte(b);
  }

  /** Missing channels of an opaque colour store 0. */
  lemma OpaqueMissingChannels(buf: Buffer, x: real, y: real, a: real)
    requires buf.Valid() && buf.InBounds(Round(x), Round(y)) && 255.0 <= a
    ensures Get(DrawPixel(buf, x, y, Color(None, None, None, a)), Round(x), Round(y)) == Rgba(0, 0, 0, 255)
  {
  }

  /**
   * The alpha a composite assigns is the union of the two coverages,
   * `a + dstA·(1 − a/255)` on the byte scale, never below the alpha that was there.
   */
  lemma BlendAlpha(c: Color, dst: Rgba)
    requires 0.0 <= c.a < 255.0
    ensures BlendValues(c, dst).a == c.a + dst.a as real * (1.0 - c.a / 255.0)
    ensures dst.a as real <= BlendValues(c, dst).a
  {
    var a, d := c.a, dst.a as real;
    var sa := a / 255.0;
    assert d * (1.0 - sa) == d - d * sa;
    assert d / 255.0 * (1.0 - sa) == d / 255.0 - d * sa / 255.0;
    assert a - d * sa == a * (1.0 - d / 255.0);
    MulNonNegative(a, 1.0 - d / 255.0);
  }

  /** The stored alpha of a pixel never drops when a translucent colour is composited over it. */
  lemma BlendKeepsAlpha(c: Color, dst: Rgba)
    requires 0.0 <= c.a < 255.0
    ensures dst.a <= Blend(c, dst).a
  {
    BlendAlpha(c, dst);
    ClampMonotone(dst.a as real, BlendValues(c, dst).a);
    ClampOfByte(dst.a);
  }

  /**
   * Compositing over a fully transparent pixel assigns the source colour
   * itself, so it stores what an opaque write of that colour would.
   */
  lemma BlendOverTransparent(c: Color, dst: Rgba)
    requires 0.0 < c.a < 255.0 && dst.a == 0
    ensures BlendValues(c, dst) == OpaqueValues(c)
    ensures Blend(c, dst) == Opaque(c)
  {
    var sa := c.a / 255.0;
    assert NewAlpha(sa, 0.0) == sa;
    forall src: real, d: real | src == OrZero(c.r) || src == OrZero(c.g) || src == OrZero(c.b)
      ensures CompositeChannel(src, d, sa, 0.0, sa) == src
    {
      assert d * 0.0 * (1.0 - sa) == 0.0;
      assert (src * sa + 0.0) / sa == src;
    }
  }

  /**
   * A fully transparent source leaves a pixel that has some alpha unchanged;
   * over a pixel whose alpha is 0 it stores transparent black (the 0/0 case).
   */
  lemma BlendTransparentSource(c: Color, dst: Rgba)
    requires c.a == 0.0
    ensures dst.a != 0 ==> Blend(c, dst) == dst
    ensures dst.a == 0 ==> Blend(c, dst) == Rgba(0, 0, 0, 0)
  {
    var da := dst.a as real / 255.0;
    assert NewAlpha(0.0, da) == da;
    if dst.a != 0 {
      forall src: real, d: real | d == dst.r as real || d == dst.g as real || d == dst.b as real
        ensures CompositeChannel(src, d, 0.0, da, da) == d
      {
        assert src * 0.0 + d * da * (1.0 - 0.0) == d * da;
        assert d * da / da == d;
      }
      assert BlendValues(c, dst) == Assigned(dst.r as real, dst.g as real, dst.b as real, dst.a as real);
      ClampOfByte(dst.r);
      ClampOfByte(dst.g);
      ClampOfByte(dst.b);
      ClampOfByte(dst.a);
    }
  }

  lemma DivTimes(x: real, n: real)
    requires n != 0.0
    ensures (x / n) * n == x
  {
  }

  lemma CancelPositive(x: real, y: real, n: real)
    requires 0.0 < n && x * n <= y * n
    ensures x <= y
  {
  }

  /**
   * Every composited colour channel lies between the source channel and the
   * stored one: source-over is a weighted average of the two.
   */
  lemma BlendChannelBetween(src: real, dst: real, sa: real, da: real)
    requires 0.0 < sa < 1.0 && 0.0 <= da <= 1.0
    ensures Min(src, dst) <= CompositeChannel(src, dst, sa, da, NewAlpha(sa, da)) <= Max(src, dst)
  {
    var w := da * (1.0 - sa);
    MulNonNegative(da, 1.0 - sa);
    var na := sa + w;
    assert NewAlpha(sa, da) == na && 0.0 < na;
    var sum := src * sa + dst * w;
    var v := sum / na;
    assert dst * da * (1.0 - sa) == dst * w;
    assert CompositeChannel(src, dst, sa, da, na) == v;
    var lo, hi := Min(src, dst), Max(src, dst);
    assert sum <= hi * sa + hi * w;
    assert lo * sa + lo * w <= sum;
    assert hi * sa + hi * w == hi * na;
    assert lo * sa + lo * w == lo * na;
    DivTimes(sum, na);
    CancelPositive(lo, v, na);
    CancelPositive(v, hi, na);
  }

  /** One `DrawPixel` call: where, and in which colour. */
  datatype Write = Write(x: real, y: real, color: Color)

  /** Every write carries a colour with non-negative alpha. */
  predicate Paintable(ws: seq<Write>)
  {
    forall i :: 0 <= i < |ws| ==> 0.0 <= ws[i].color.a
  }

  /** The write lands on pixel `(x, y)` once its coordinates are rounded. */
  predicate Hits(w: Write, x: int, y: int)
  {
    Round(w.x) == x && Round(w.y) == y
  }

  /** The buffer after the writes `ws` have been applied in order. */
  function Render(buf: Buffer, ws: seq<Write>): (r: Buffer)
    requires buf.Valid() && Paintable(ws)
    ensures r.Valid() && r.width == buf.width && r.height == buf.height
    decreases |ws|
  {
    if |ws| == 0 then buf
    else
      var last := ws[|ws| - 1];
      DrawPixel(Render(buf, ws[..|ws| - 1]), last.x, last.y, last.color)
  }

  /** Applying a list that starts with `w` is drawing `w` first and then the rest. */
  lemma {:induction false} RenderCons(buf: Buffer, w: Write, ws: seq<Write>)
    requires buf.Valid() && 0.0 <= w.color.a && Paintable(ws)
    ensures Paintable([w] + ws)
    ensures Render(buf, [w] + ws) == Render(DrawPixel(buf, w.x, w.y, w.color), ws)
    decreases |ws|
  {
    var all := [w] + ws;
    assert Paintable(all) by {
      forall i | 0 <= i < |all| ensures 0.0 <= all[i].color.a {
        if i > 0 { assert all[i] == ws[i - 1]; }
      }
    }
    if |ws| > 0 {
      var init := ws[..|ws| - 1];
      assert all[..|all| - 1] == [w] + init;
      assert all[|all| - 1] == ws[|ws| - 1];
      RenderCons(buf, w, init);
    }
  }

  /** Applying two lists one after the other is applying their concatenation. */
  lemma {:induction false} RenderAppend(buf: Buffer, a: seq<Write>, b: seq<Write>)
    requires buf.Valid() && Paintable(a) && Paintable(b)
    ensures Paintable(a + b)
    ensures Render(buf, a + b) == Render(Render(buf, a), b)
    decreases |b|
  {
    var ab := a + b;
    assert Paintable(ab) by {
      forall i | 0 <= i < |ab| ensures 0.0 <= ab[i].color.a {
        if i < |a| { assert ab[i] == a[i]; } else { assert ab[i] == b[i - |a|]; }
      }
    }
    if |b| > 0 {
      var init := b[..|b| - 1];
      assert Paintable(init) by {
        forall i | 0 <= i < |init| ensures 0.0 <= init[i].color.a {
          assert init[i] == b[i];
        }
      }
      assert ab[..|ab| - 1] == a + init;
      assert ab[|ab| - 1] == b[|b| - 1];
      RenderAppend(buf, a, init);
      var last := b[|b| - 1];
      assert Render(buf, ab) == DrawPixel(Render(buf, a + init), last.x, last.y, last.color);
      assert Render(Render(buf, a), b) == DrawPixel(Render(Render(buf, a), init), last.x, last.y, last.color);
    } else {
      assert ab == a;
    }
  }

  /** Pixels that no write lands on keep their contents. */
  lemma {:induction false} RenderElsewhere(buf: Buffer, ws: seq<Write>, x: int, y: int)
    requires buf.Valid() && Paintable(ws) && buf.InBounds(x, y)
    requires forall i :: 0 <= i < |ws| ==> !Hits(ws[i], x, y)
    ensures Get(Render(buf, ws), x, y) == Get(buf, x, y)
    decreases |ws|
  {
    if |ws| > 0 {
      var last := ws[|ws| - 1];
      RenderElsewhere(buf, ws[..|ws| - 1], x, y);
      DrawPixelElsewhere(Render(buf, ws[..|ws| - 1]), last.x, last.y, last.color, x, y);
    }
  }

  /** Some write of `ws` lands on pixel `(x, y)`. */
  predicate Touches(ws: seq<Write>, x: int, y: int)
  {
    exists i :: 0 <= i < |ws| && Hits(ws[i], x, y)
  }

  /**
   * Writes that all carry the same opaque colour leave exactly the pixels they
   * land on in that colour and every other pixel as it was.
   */
  lemma {:induction false} RenderSolidOpaque(buf: Buffer, ws: seq<Write>, c: Color, x: int, y: int)
    requires buf.Valid() && buf.InBounds(x, y) && 255.0 <= c.a
    requires forall i :: 0 <= i < |ws| ==> ws[i].color == c
    ensures Get(Render(buf, ws), x, y) == if Touches(ws, x, y) then Opaque(c) else Get(buf, x, y)
    decreases |ws|
  {
    if |ws| > 0 {
      var init, last := ws[..|ws| - 1], ws[|ws| - 1];
      var prev := Render(buf, init);
      RenderSolidOpaque(buf, init, c, x, y);
      assert Render(buf, ws) == DrawPixel(prev, last.x, last.y, c);
      if Hits(last, x, y) {
        assert Touches(ws, x, y) by {
          assert Hits(ws[|ws| - 1], x, y);
        }
      } else {
        DrawPixelElsewhere(prev, last.x, last.y, c, x, y);
        assert Touches(ws, x, y) == Touches(init, x, y) by {
          if Touches(ws, x, y) {
            var i :| 0 <= i < |ws| && Hits(ws[i], x, y);
            assert init[i] == ws[i];
          }
          if Touches(init, x, y) {
            var i :| 0 <= i < |init| && Hits(init[i], x, y);
            assert init[i] == ws[i];
          }
        }
      }
    }
  }
}
