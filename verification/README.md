# Simple2DEngine rasteriser — a Dafny model

This project models the software rasteriser of Simple2DEngine (`src/engine/engine.ts`). The rasteriser is an RGBA pixel
buffer (`imageData`, a `Uint8ClampedArray` of `width*height*4` bytes) together with the drawing
rules that write into it:

- `GetScreenGrid` / `updateScreenSize`: a fresh all-zero buffer.
- `DrawPixel`: round the coordinates, clip silently, then either overwrite opaquely or blend.
  The blend is straight-alpha source-over.
- `DrawLine`: the all-octant integer Bresenham loop with error term `dx - dy`.
- `DrawShape`: a closed polygon outline made of `DrawLine` segments.
- `DrawFilledShape`: an even-odd scanline fill.
  - The scanlines are `minY, minY+1, ...` while `<= maxY`.
  - Edges are counted by a half-open crossing test.
  - Each span `ceil(s_i)..floor(s_{i+1})` is written at row `y - 1`.
- `DrawRectangle`: the unit square mapped through a 2×2 matrix, translated, then filled.
- `DrawTexturedRectangle`: the same scanline pass over the untranslated matrix image of the unit square.
  - Each local pixel is mapped back through the inverse matrix.
  - The texel it receives comes from `getImagePixel`.
- `getImagePixel`: a texel index built from the JavaScript truncated remainder, read at `abs(index + k)`.

## Structure

Every drawing operation is modelled the same way.

- A pure function computes the sequence of pixel-write requests: `Write(x, y, color)`, with the coordinates that are handed to `DrawPixel`.
- The effect on the buffer is `PixelBuffer.Render`, a left fold of `DrawPixel` over that sequence.
- Partner lemmas connect each write list to an independent description of what it paints. Examples:
  - the Bresenham trace to its step and endpoint properties;
  - the outline to the closed polygon's edge list;
  - the scanline cells to "on a scanline and between a sorted pair of crossings";
  - an axis-aligned rectangle to the pixel box it paints.

Numbers are exact:

- `Math.round` is `floor(v + 1/2)` (`Numeric.Round`).
- Stores into the byte array go through `Numeric.ToUint8Clamp`. This is the clamp and round-half-to-even conversion of section 7.1.12 of ECMA-262. A non-finite value (the 0/0 of a blend onto a transparent pixel with alpha 0) is stored as 0.
- The JavaScript `%` on integers is `Numeric.TruncRem`, which truncates toward zero.
- Coordinates and blending use exact real arithmetic.

The modules are:

| file | module | contents |
|---|---|---|
| numeric.dfy | Numeric | rounding, floor/ceil, byte clamp, truncated remainder |
| geometry.dfy | Geometry | points, 2×2 matrices, explicit inverse, point maps |
| buffer.dfy | PixelBuffer | the RGBA buffer, `DrawPixel`, blending, `Render` |
| line.dfy | Bresenham | `DrawLine` as a reference trace and as a loop |
| scanline.dfy | Scanline | crossings, sorting, spans, scanline sweep of `DrawFilledShape` |
| translation.dfy | Translation | the scanline cells of a polygon moved by an integer x offset |
| shapes.dfy | Shapes | `DrawShape`, `DrawFilledShape`, `DrawRectangle` |
| texture.dfy | Textures | `getImagePixel`, option defaults, `DrawTexturedRectangle` |

## Model

| member | source | states |
|---|---|---|
| Numeric.Abs | src/engine/engine.ts:170-171 | `Math.abs` of an integer is the value or its negation, and never negative |
| Numeric.Floor | src/engine/engine.ts:247 | `Math.floor` gives the unique integer n with n <= v < n + 1 |
| Numeric.Ceil | src/engine/engine.ts:246 | `Math.ceil` gives the unique integer n with v <= n < v + 1 |
| Numeric.Round | src/engine/engine.ts:142-143 | `Math.round` gives the integer within half a unit of v, with halves going up |
| Numeric.ClampRounds | src/engine/engine.ts:150-161 | the byte store saturates at 0 and 255, lands within 1/2 of an in-range value, and breaks ties to the even byte |
| Numeric.ClampOfByte | src/engine/engine.ts:150-152 | storing a value that already is a byte keeps it unchanged |
| Numeric.ClampMonotone | src/engine/engine.ts:158-161 | the byte store never reverses the order of two values |
| Numeric.TruncRem | src/engine/engine.ts:346 | the JavaScript remainder is smaller than the divisor in magnitude and has the sign of the dividend |
| Numeric.TruncDivision | src/engine/engine.ts:346 | dividend = truncated quotient × divisor + remainder; for a non-negative dividend it agrees with the mathematical modulus |
| Geometry.AdjugateLeft | src/engine/engine.ts:333 | the adjugate divided by the determinant is a left inverse of a non-singular matrix |
| Geometry.AdjugateRight | src/engine/engine.ts:333 | the adjugate divided by the determinant is a right inverse of a non-singular matrix |
| Geometry.Inverse | src/engine/engine.ts:333 | `math.inv` of a non-singular 2×2 matrix: its product with the matrix is the identity on both sides |
| Geometry.ApplyMul | src/engine/engine.ts:334 | applying a matrix product to a point is applying the factors one after the other |
| Geometry.InverseRoundTrip | src/engine/engine.ts:333-334 | mapping a point through the matrix and then through its inverse gives the point back, and the same holds in the other order |
| PixelBuffer.Offset | src/engine/engine.ts:147 | the byte index of an in-bounds pixel leaves room for all four channels |
| PixelBuffer.OffsetsDisjoint | src/engine/engine.ts:147 | two distinct in-bounds pixels own disjoint 4-byte groups |
| PixelBuffer.NewBuffer | src/engine/engine.ts:138-140 | a fresh buffer has the requested size and every pixel is transparent black |
| PixelBuffer.UpdateScreenSize | src/engine/engine.ts:124-132 | resizing gives a fresh all-zero buffer of the new size |
| PixelBuffer.DrawPixel | src/engine/engine.ts:141-163 | a rounded point outside the screen leaves the buffer unchanged; otherwise only that pixel's 4 bytes may change; an opaque colour stores (r or 0, g or 0, b or 0, a) and a translucent one stores the blend |
| PixelBuffer.DrawPixelElsewhere | src/engine/engine.ts:144-153 | a pixel other than the rounded target keeps its colour |
| PixelBuffer.OpaqueOverwrite | src/engine/engine.ts:149-153 | an opaque byte colour is stored exactly, whatever was there before |
| PixelBuffer.OpaqueMissingChannels | src/engine/engine.ts:150-153 | missing colour channels default to 0 in an opaque write |
| PixelBuffer.BlendAlpha | src/engine/engine.ts:155-157 | the new alpha is `a + dstA·(1 - a/255)` (in byte units) and is never below the previous alpha |
| PixelBuffer.BlendKeepsAlpha | src/engine/engine.ts:155-161 | after the byte store a translucent write never lowers a pixel's alpha |
| PixelBuffer.BlendOverTransparent | src/engine/engine.ts:155-161 | blending over a pixel with alpha 0 stores the source colour and the source alpha |
| PixelBuffer.BlendTransparentSource | src/engine/engine.ts:155-161 | a fully transparent source keeps a visible pixel; over an invisible pixel the 0/0 result stores zeros |
| PixelBuffer.BlendChannelBetween | src/engine/engine.ts:158-160 | a blended colour channel lies between the source and destination channels |
| PixelBuffer.Render | src/engine/engine.ts:141-163 | a sequence of pixel writes keeps the buffer well formed and its size |
| PixelBuffer.RenderCons | src/engine/engine.ts:141-163 | rendering a write list is the first write followed by the rest |
| PixelBuffer.RenderAppend | src/engine/engine.ts:205-210 | rendering two write lists one after the other is rendering their concatenation |
| PixelBuffer.RenderElsewhere | src/engine/engine.ts:144-146 | a pixel that no write hits keeps its colour |
| PixelBuffer.RenderSolidOpaque | src/engine/engine.ts:149-153 | after opaque writes of one colour, a pixel is that colour if some write hit it, and is unchanged otherwise |
| Bresenham.MakeSetup | src/engine/engine.ts:165-176 | both endpoints are rounded, and each axis has a unit sign and a non-negative delta that lead from the rounded start to the rounded end |
| Bresenham.StepKeepsInv | src/engine/engine.ts:187-197 | one loop iteration keeps the error invariant, strictly decreases the remaining distance, and moves x by 0 or signX and y by 0 or signY, never both by 0 |
| Bresenham.InvInBox | src/engine/engine.ts:178-197 | the current point never leaves the box spanned by the rounded endpoints |
| Bresenham.Trace | src/engine/engine.ts:180-198 | the loop terminates; its pixels start at the current point, end exactly at the rounded end point, stay in the box, and are successive single steps |
| Bresenham.InitialInv | src/engine/engine.ts:176-179 | the initial error `dx - dy` and the start point satisfy the loop invariant |
| Bresenham.Line | src/engine/engine.ts:164-199 | `DrawLine` writes the rounded start point first and the rounded end point last; every step moves by at most one unit on each axis toward the end, and no pixel lies outside the endpoints' box |
| Bresenham.TraceHorizontal | src/engine/engine.ts:187-192 | on a horizontal line each iteration moves only x, by signX |
| Bresenham.TraceVertical | src/engine/engine.ts:194-197 | on a vertical line each iteration moves only y, by signY |
| Bresenham.AxisAlignedLine | src/engine/engine.ts:164-199 | a horizontal or vertical line writes exactly the abs(delta)+1 consecutive pixels from start to end, all distinct |
| Bresenham.WalkStep | src/engine/engine.ts:180-198 | drawing the current pixel and stepping keeps "the rest of the trace yields the final buffer" |
| Bresenham.WalkLine | src/engine/engine.ts:178-198 | the loop's buffer equals the reference trace rendered onto the original buffer |
| Bresenham.DrawLine | src/engine/engine.ts:164-199 | `DrawLine` paints exactly the pixels of the reference line, in order, onto the buffer |
| Scanline.Lo | src/engine/engine.ts:218-224 | the minimum is at most every element and is attained |
| Scanline.Hi | src/engine/engine.ts:218-224 | the maximum is at least every element and is attained |
| Scanline.NextWraps | src/engine/engine.ts:233 | the edge from the last vertex closes back to the first |
| Scanline.NextInside | src/engine/engine.ts:233 | every other edge goes to the following vertex |
| Scanline.CrossesIffSides | src/engine/engine.ts:235 | an edge crosses scanline y exactly when its endpoints lie on different sides of the half-open test `p.y < y` |
| Scanline.CrossAsRatio | src/engine/engine.ts:236 | the crossing point is the edge's point at parameter t in [0, 1] |
| Scanline.CrossSymmetric | src/engine/engine.ts:235-236 | the crossing test and the crossing x do not depend on the direction of the edge |
| Scanline.CrossBetween | src/engine/engine.ts:236 | a crossing x lies between the edge's endpoint x values |
| Scanline.EdgeCrossingsMembership | src/engine/engine.ts:231-239 | x is collected from the first n edges exactly when one of them crosses the scanline at x |
| Scanline.CrossingsMembership | src/engine/engine.ts:231-239 | the intersection list holds exactly the crossing x values of all edges of the closed polygon |
| Scanline.PathCrossingsParity | src/engine/engine.ts:231-239 | an open path crosses the scanline an even number of times exactly when its first and last vertices lie on the same side |
| Scanline.CrossingsEven | src/engine/engine.ts:231-245 | a closed polygon always has an even number of crossings, so every intersection is paired |
| Scanline.InsertCorrect | src/engine/engine.ts:242 | inserting into a sorted list keeps it sorted and adds exactly the one element |
| Scanline.SortCorrect | src/engine/engine.ts:242 | the numeric sort gives an ascending permutation of the intersections |
| Scanline.SortedUnique | src/engine/engine.ts:242 | any two ascending permutations of the same list are equal, so any correct sort gives the same spans |
| Scanline.RangeMembership | src/engine/engine.ts:249 | the inner loop visits exactly the integers lo..hi, each once, ascending |
| Scanline.SpansMembership | src/engine/engine.ts:245-252 | x is filled on a scanline exactly when ceil(s_i) <= x <= floor(s_{i+1}) for an even i |
| Scanline.ColumnsMembership | src/engine/engine.ts:249-250 | a row's cells are exactly its columns at that scanline |
| Scanline.Scanlines | src/engine/engine.ts:227 | the number of scanlines is exactly the number of k with minY + k <= maxY |
| Scanline.SweepOfMembership | src/engine/engine.ts:227-253 | a cell belongs to the first n scanlines exactly when it is a column of one of them |
| Scanline.SweepOfExactly | src/engine/engine.ts:227 | a swept cell lies on one of the grid lines base, base+1, ... up to top, and its column belongs to that line |
| Scanline.CellsMembership | src/engine/engine.ts:212-253 | a cell is filled exactly when there are at least two points, its y is minY + k <= maxY, and its x lies in that scanline's spans |
| Scanline.FillCoverage | src/engine/engine.ts:212-253 | a cell is filled exactly when its y is a scanline and its x lies between a sorted pair of crossings, ceil(s_i) <= x <= floor(s_{i+1}) |
| Scanline.CrossingInBox | src/engine/engine.ts:218-239 | every crossing lies inside the polygon's x range and above minY |
| Scanline.CellsInBox | src/engine/engine.ts:212-253 | every filled cell lies inside the polygon's bounding box, with minY < y |
| Translation.BoundsShift | src/engine/engine.ts:218-224 | moving a polygon moves its minY and maxY by the same offset |
| Translation.CrossShift | src/engine/engine.ts:235-236 | moving an edge and the scanline together keeps the crossing test and moves the crossing x |
| Translation.CrossingsShift | src/engine/engine.ts:231-239 | the crossings of a moved polygon are the original crossings moved |
| Translation.SortShift | src/engine/engine.ts:242 | sorting commutes with adding a constant |
| Translation.SpansShift | src/engine/engine.ts:245-251 | spans between crossings moved by an integer are the original spans moved |
| Translation.RowColumnsShift | src/engine/engine.ts:231-251 | a moved polygon fills, on the moved scanline, the original columns moved |
| Translation.SweepShift | src/engine/engine.ts:227-253 | the scanline sweep of a moved polygon is the original sweep moved |
| Translation.CellsShift | src/engine/engine.ts:212-253 | filling a polygon moved by an integer x offset and any y offset fills the original cells moved by the same offset |
| Shapes.ChainSnoc | src/engine/engine.ts:205-207 | each iteration of the segment loop appends the line from point i to point i+1 |
| Shapes.LinksAreEdges | src/engine/engine.ts:205-210 | the open segments are all edges of the closed polygon except the closing one |
| Shapes.OutlineIsClosedPolygon | src/engine/engine.ts:200-211 | fewer than two points draw nothing; otherwise the outline is exactly the polygon's edges p_i to p_{i+1} and then p_{n-1} to p_0 |
| Shapes.ChainStep | src/engine/engine.ts:205-207 | drawing i+1 segments is drawing i segments and then segment i |
| Shapes.OutlineStep | src/engine/engine.ts:205-210 | the outline is the open chain followed by the closing segment |
| Shapes.DrawShape | src/engine/engine.ts:200-211 | the loop's buffer equals the closed outline rendered onto the original buffer |
| Shapes.DrawFilledShape | src/engine/engine.ts:212-254 | filling keeps the buffer well formed and its size |
| Shapes.FillTouches | src/engine/engine.ts:245-251 | a pixel receives a fill write exactly when a filled cell rounds onto it |
| Shapes.FilledShapeEffect | src/engine/engine.ts:212-254 | a pixel outside the fill is unchanged; with an opaque colour a pixel inside the fill takes that colour |
| Shapes.DrawRectangle | src/engine/engine.ts:255-263 | drawing a rectangle keeps the buffer well formed and its size |
| Shapes.RectangleCorners | src/engine/engine.ts:256-261 | the corners are (x1, y1) plus the matrix images of (0,0), (0,1), (1,1) and (1,0), in that order |
| Shapes.BoxCrossings | src/engine/engine.ts:231-239 | an axis-aligned box is crossed at its left and right x exactly on the scanlines in (top, bottom] |
| Shapes.BoxRow | src/engine/engine.ts:231-251 | on a box's scanline the filled columns are ceil(left)..floor(right) |
| Shapes.BoxCells | src/engine/engine.ts:212-253 | an axis-aligned box fills exactly the cells on its scanlines with ceil(left) <= x <= floor(right) |
| Shapes.ScaledBox | src/engine/engine.ts:256-261 | a diagonal matrix maps the unit square to the box of width w and height h at (x1, y1) |
| Shapes.AxisRectangleFills | src/engine/engine.ts:255-263 | a rectangle with integer corner (x1, y1) and size w × h fills exactly the pixels x1 <= x <= x1 + w, y1 <= y < y1 + h |
| Shapes.AxisRectangle | src/engine/engine.ts:255-263 | an opaque integer rectangle paints exactly those pixels and leaves every other pixel unchanged |
| Textures.TexelIndexRange | src/engine/engine.ts:346 | for any integer coordinates, abs(index) stays inside the image data |
| Textures.Sample | src/engine/engine.ts:342-353 | `getImagePixel` always returns all three colour channels and an alpha byte |
| Textures.SampleWraps | src/engine/engine.ts:342-352 | for x, y >= 0 the texel read is the one at (x mod w, y mod h) |
| Textures.SamplePeriodic | src/engine/engine.ts:342-352 | for x, y >= 0 sampling is periodic with period w in x and h in y |
| Textures.SamplePeriodicNonPositive | src/engine/engine.ts:342-352 | for x, y <= 0 sampling is periodic too: moving w further left or h further up reads the same colour |
| Textures.SampleNotPeriodicAcrossZero | src/engine/engine.ts:342-352 | the two periodic halves do not join: in a 2 x 1 image, column -1 and column 1 read different colours |
| Textures.PixelNumberRange | src/engine/engine.ts:346 | the index, divided by 4, stays strictly within w·h pixels of the start of the data, in either direction |
| Textures.SampleAt | src/engine/engine.ts:346-352 | when the index points at column col of row row, `getImagePixel` returns that texel with its channels in order |
| Textures.SampleForward | src/engine/engine.ts:346-352 | for any x and y whose index is non-negative, the index lands inside the image and the texel it points at is read in channel order |
| Textures.SampleMirrored | src/engine/engine.ts:346-351 | for any x and y whose index -4·m is negative, `abs` reads backwards: red is byte 0 of pixel m, and green, blue and alpha are bytes 3, 2 and 1 of pixel m - 1 |
| Textures.NegativeColumn | src/engine/engine.ts:342-352 | for a negative column with k = (-x) mod w > 0 and y >= 0: on image rows y mod h >= 1 the texel at column w - k of the row above is read in order; on row y mod h = 0 the bytes come out mirrored from pixel k |
| Textures.Resolve | src/engine/engine.ts:276-280 | a missing option defaults to the identity matrix, size 1 or offset 0; a given option is kept |
| Textures.TexCoordOfImage | src/engine/engine.ts:282-283 | the local pixel M·(s, t) samples texel (round(s·(W-1)·sizeX) + u, round(t·(H-1)·sizeY) + v) |
| Textures.DrawTexturedRectangle | src/engine/engine.ts:264-341 | a textured rectangle keeps the buffer well formed and its size |
| Textures.TexturedWriteAt | src/engine/engine.ts:330-337 | a cell equal to M·(s, t) is written at (x1 + x, y1 + y - 1) with the texel for (s, t) |
| Textures.TexturedCell | src/engine/engine.ts:306-337 | the k-th write of the textured rectangle is at (x1 + x, y1 + y - 1) of the k-th local cell, and carries that cell's texel |
| Textures.TexturedFootprint | src/engine/engine.ts:255-341 | for a whole-pixel x1, the textured rectangle writes the same positions in the same order as `DrawRectangle` with the same matrix |

## Definitions

These are the core definitions the lemmas above are about. Their own contracts are empty or state only side facts, so they have no row in the table.

| definition | source | characterised by |
|---|---|---|
| Numeric.ToUint8Clamp | src/engine/engine.ts:150-161 | Numeric.ClampRounds, Numeric.ClampOfByte, Numeric.ClampMonotone |
| PixelBuffer.Opaque, PixelBuffer.OpaqueValues | src/engine/engine.ts:149-153 | PixelBuffer.OpaqueOverwrite, PixelBuffer.OpaqueMissingChannels |
| PixelBuffer.BlendValues, PixelBuffer.Blend, PixelBuffer.CompositeChannel | src/engine/engine.ts:155-161 | PixelBuffer.BlendAlpha, PixelBuffer.BlendKeepsAlpha, PixelBuffer.BlendOverTransparent, PixelBuffer.BlendTransparentSource, PixelBuffer.BlendChannelBetween |
| Bresenham.Step | src/engine/engine.ts:187-197 | Bresenham.StepKeepsInv, Bresenham.HorizontalStep, Bresenham.VerticalStep |
| Bresenham.Solid | src/engine/engine.ts:181 | PixelBuffer.RenderSolidOpaque, Bresenham.RenderSolidCons |
| Scanline.MinY, Scanline.MaxY | src/engine/engine.ts:218-224 | Scanline.Lo, Scanline.Hi, Translation.BoundsShift |
| Scanline.Crosses, Scanline.CrossX | src/engine/engine.ts:235-236 | Scanline.CrossesIffSides, Scanline.CrossAsRatio, Scanline.CrossSymmetric, Scanline.CrossBetween |
| Scanline.EdgeCrossings, Scanline.Crossings | src/engine/engine.ts:231-239 | Scanline.EdgeCrossingsMembership, Scanline.CrossingsMembership, Scanline.CrossingsEven |
| Scanline.Insert, Scanline.Sort | src/engine/engine.ts:242 | Scanline.InsertCorrect, Scanline.SortCorrect, Scanline.SortedUnique |
| Scanline.Range, Scanline.Spans | src/engine/engine.ts:245-251 | Scanline.RangeMembership, Scanline.SpansMembership |
| Scanline.Cells, Scanline.Sweep, Scanline.RowColumns | src/engine/engine.ts:212-253 | Scanline.CellsMembership, Scanline.FillCoverage, Scanline.CellsInBox, Translation.CellsShift |
| Shapes.OutlineWrites | src/engine/engine.ts:200-211 | Shapes.OutlineIsClosedPolygon, Shapes.DrawShape |
| Shapes.FillWrites | src/engine/engine.ts:249-250 | Shapes.FillTouches, Shapes.FilledShapeEffect |
| Shapes.RectanglePoints | src/engine/engine.ts:256-261 | Shapes.RectangleCorners, Shapes.ScaledBox |
| Textures.TexelIndex, Textures.PixelNumber | src/engine/engine.ts:346 | Textures.TexelIndexRange, Textures.PixelNumberRange, Textures.SampleForward, Textures.SampleMirrored |
| Textures.TexCoord | src/engine/engine.ts:333-337 | Textures.TexCoordOfImage, Textures.TexturedWriteAt |
| Textures.TexturedWrites | src/engine/engine.ts:306-340 | Textures.TexturedCell, Textures.TexturedFootprint |

## Left out

- The constructor's canvas and CSS sizing, image loading through `onload`, and the keyboard and mouse listeners are browser I/O (src/engine/engine.ts:31-123). So are the `requestAnimationFrame` loop and the FPS arithmetic.
- `updatePixelSize`, `DrawScreen`, `SetBackground` and `drawFps` only touch CSS or the canvas context (src/engine/engine.ts:133-137, 354-365). `updateScreenSize` is modelled only through its buffer reset.
- `src/main.ts` is not part of this model. It is a time-driven demo scene.
- mathjs `multiply` and `inv` are library calls. They are modelled as exact 2×2 real formulas.
  - For a singular matrix mathjs `inv` throws, so `DrawTexturedRectangle` throws at src/engine/engine.ts:333 on the first cell it visits. The precondition `Det != 0` excludes that case.
- IEEE-754 floating point is not modelled. Coordinates, crossings and blending use exact reals, so rounding drift of the real program is not represented.
- A colour whose alpha is negative is excluded by precondition, because it would need IEEE infinities in the blend.
- The intermediate channel values outside 0–255 are modelled only through the byte store. NaN only arises as 0/0, which the model stores as 0.
- Filling in defaults mutates the caller's `optional` object (src/engine/engine.ts:276-280). The model resolves the options into a new value instead.
- An unknown texture name throws (src/engine/engine.ts:282). The texture is passed in as an already loaded `Image` value.
- Non-integer `u` and `v` are outside the model: `u` and `v` are integers. In the program the index is then either fractional, so every channel reads `undefined`, or a whole number that need not be a multiple of 4, so the channels come from shifted or other texels.
- The JavaScript sort comparator is modelled by insertion sort. `Scanline.SortedUnique` shows that every correct sort gives the same result.
- An unpaired trailing intersection would write nothing in the program. `Scanline.CrossingsEven` proves that it never occurs for a closed polygon, and `Spans` ignores a lone last element.
- Endpoint symmetry of `DrawLine` is not claimed. It is false for this Bresenham variant: (0,0)→(2,1) draws (1,0), but (2,1)→(0,0) draws (1,1).
- Textures.TexturedFootprint: compares positions only when x1 is a whole number, because a fractional x1 can round the two write lists onto different columns.
- Translation.CellsShift: covers integer x offsets only, because with a fractional x offset ceil/floor of the moved crossings do not move by the same amount.
- PixelBuffer.NewBuffer / PixelBuffer.UpdateScreenSize: sizes are positive by precondition. In the program a zero size throws, and a negative size gives a buffer on which no pixel is ever drawn, because the bounds test in `DrawPixel` never passes.
- PixelBuffer.Render: its own contract only keeps the buffer well formed and its size; what a write list paints is stated by PixelBuffer.RenderSolidOpaque and PixelBuffer.RenderElsewhere.
- Shapes.DrawFilledShape: its own contract only keeps the buffer well formed and its size; which pixels change is stated by Shapes.FilledShapeEffect, Shapes.FillTouches and Scanline.CellsMembership.
- Shapes.DrawRectangle: its own contract only keeps the buffer well formed and its size; the pixels of an axis-aligned rectangle are stated by Shapes.AxisRectangle.
- Textures.DrawTexturedRectangle: its own contract only keeps the buffer well formed and its size; the position and texel of each write are stated by Textures.TexturedCell and Textures.TexturedFootprint.
- Textures.Sample: its own contract only says that every channel is present; which texel is read is stated by Textures.SampleForward, Textures.SampleMirrored, Textures.SampleWraps and Textures.NegativeColumn.
- Shapes.AxisRectangle: is stated for integer corners, a non-negative integer size, a positive height and an opaque colour. The general rotated case is covered by Shapes.FilledShapeEffect and Scanline.CellsMembership.

## Behaviour worth knowing

- A rectangle at (10, 10) scaled 20 × 10 fills columns 10..30 in rows 10..19 (`Shapes.AxisRectangleFills`). Each span is closed at both ends: `ceil(s_0)..floor(s_1)`, src/engine/engine.ts:245-250.
- Texture sampling is periodic on each side of 0 but not across 0. It repeats with the image's size on non-negative coordinates (`Textures.SamplePeriodic`) and on non-positive ones (`Textures.SamplePeriodicNonPositive`). Column -1 and column `w - 1` differ in a 2 × 1 image (`Textures.SampleNotPeriodicAcrossZero`). For a negative column `x` whose `k = (-x) mod w` is not 0, the remainder is `-k` (`Textures.NegativeColumn`):
  - On image rows below the first, the read lands `k` pixels before the row start. That is column `w - k` of the previous row, read in channel order.
  - On the first image row the whole index is negative, and `abs` reads the bytes backwards.
- The fill's scanlines are `minY + k`. They are not integer rows when `minY` is fractional, and each is written at row `round(y - 1)`.
