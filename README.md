# framebrush core in Dafny

`framebrush` draws onto a flat, row-major pixel buffer (the *surface*) via a
coarser logical grid (the *canvas*). Every logical cell (x, y) covers a
rectangle of surface pixels. The rectangle's edges are `round(x * ratio)` and
`round((x + 1) * ratio)`, where `ratio = surface size / canvas size` on each
axis and `round` rounds halves up. There are two addressing modes:

- **clamped**: a non-positive coordinate counts as 0;
- **wrap-around**: a coordinate is reduced modulo the canvas size with a
  Euclidean residue (`modv2`).

On top of `put`, which fills one cell, the library offers:

- shapes that call an inner drawable once per logical cell: `Rect` in
  row-major order, and `Line` along Bresenham's walk;
- `SolidRect`, which fills surface row slices directly;
- the `RGBu32` colour, which packs red, green and blue into `0x00RRGGBB`.

The model has four modules:

- `Mapping` (mapping.dfy): exact rounding and scaling, Rust's remainder and
  `modv2`, `canvas_to_surface`, and which surface pixels a cell covers
  (`InCell`, `Painted`). It also holds tiling, and `get` as an index
  computation with its round trip against `put`.
- `Shapes` (shapes.dfy): the cell sequences `Rect` and `Line` visit. `Walk`
  follows the loop of `Line::draw` step by step, including both inner
  `break`s, and the lemmas give its endpoints, length, steps and lack of
  repeats.
- `Surface` (canvas.dfy):
  - `Canvas<T>` is a class over `buf: array<T>`;
  - `Fill`, `Set`, `Put` and `Clear` mutate the buffer, and `Put` runs the
    source's nested loops for both addressing modes;
  - `DrawRect` and `DrawLine` run the shapes' loops and `SolidRect` runs the
    row-slice fill;
  - `Put`, `Draw`, `DrawRect` and `DrawLine` are proved against the pure
    functions `Painted`, `Render` and `RenderCells`; `Fill`, `Set`,
    `FillClipped` and `SolidRect` state their new buffer directly.
- `Colour` (colour.dfy): `RGBu32` and its packed value.

The ratio is the exact rational `s / c`. `round(k * s / c)` is computed as
`(2*k*s + c) / (2*c)`, and `Mapping.ScaleEdgeIsRound` proves that this equals
the real-valued `round` of src/lib.rs:20-27 applied to `k * (s / c)`.

For clamped `get` of a cell whose top-left pixel lies off the surface, the
model follows the code (src/lib.rs:113): it reads the last buffer element
(`buf.last()`), not the in-bounds pixel nearest the requested cell.

## Model

| member | source | states |
|---|---|---|
| Mapping.Round | src/lib.rs:20-27 | for a non-negative argument the result is the nearest integer, a half rounding up: r - 1/2 <= n < r + 1/2 |
| Mapping.RoundOfSplit | src/lib.rs:20-27 | for a whole part f and a fraction in [0, 1), round gives f when the fraction is below one half and f + 1 otherwise |
| Mapping.RoundOfQuotient | src/lib.rs:20-27 | round(p / c) is floor(p / c), plus one exactly when twice the remainder reaches c |
| Mapping.ScaleEdgeHalfUp | src/lib.rs:20-27 | the integer edge formula is floor(k*s/c) when the fractional part is below one half and floor + 1 otherwise |
| Mapping.ScaleEdgeIsRound | src/lib.rs:99-102 | the integer edge ScaleEdge(k, s, c) = (2ks + c) / 2c equals round(k * (s / c)) with exact real arithmetic |
| Mapping.RoundScaledQuotient | src/lib.rs:99-102 | round(k * (s / c)) equals round(ks / c) |
| Mapping.ScaleEdgeMono | src/lib.rs:172-177 | edges never move left as the logical coordinate grows |
| Mapping.ScaleEdgeStep | src/lib.rs:172-177 | with ratio at least one every cell is at least one pixel wide |
| Mapping.ScaleEdgeFull | src/lib.rs:41-44 | the far edge of the last logical cell is the surface extent |
| Mapping.ScaleEdgeZero | src/lib.rs:99-102 | logical edge 0 maps to surface edge 0 |
| Mapping.ScaleEdgeEmpty | src/lib.rs:41-44 | a surface of extent zero maps every edge to 0 |
| Mapping.EdgeBounds | src/lib.rs:99-102 | edges of coordinates within the canvas stay within the surface |
| Mapping.Rem | src/lib.rs:31 | Rust's `%` on i32: result strictly between -b and b, with the sign of the dividend, and differing from the dividend by a multiple of b (so exactly the truncating remainder) |
| Mapping.ModV2 | src/lib.rs:30-32 | `((a % b) + b) % b` lies in [0, b) and is the Euclidean residue of a |
| Mapping.ModV2IsEuclidean | src/lib.rs:30-32 | the two truncating remainders compose to the Euclidean residue, for negative a too |
| Mapping.ModV2Periodic | src/lib.rs:30-32 | shifting the argument by b in either direction does not change modv2 |
| Mapping.Normalize | src/lib.rs:73-98 | clamped: max(k, 0); wrap: the Euclidean residue k % c, below the canvas extent |
| Mapping.CanvasToSurface | src/lib.rs:72-103 | clamped: a non-positive coordinate maps to 0 on that axis; wrap: the result is within the surface |
| Mapping.CanvasToSurfaceRounds | src/lib.rs:72-103 | each coordinate is round(normalized coordinate * per-axis ratio), with no upper clamp |
| Mapping.WrapPeriodic | src/lib.rs:94-95 | in wrap mode canvas_to_surface(x - cw, y) == canvas_to_surface(x, y), and likewise for y |
| Mapping.Columns | src/lib.rs:175-177 | a cell's column span is ordered and starts at canvas_to_surface's x |
| Mapping.Rows | src/lib.rs:172-173 | a cell's row span is ordered and starts at canvas_to_surface's y |
| Mapping.Painted | src/lib.rs:155-206 | after put the length is unchanged, every pixel of the cell is v and every other element is unchanged |
| Mapping.AdjacentEdgesMeet | src/lib.rs:175-177 | the right edge of cell x is the left edge of cell x + 1 |
| Mapping.AdjacentRowEdgesMeet | src/lib.rs:172-173 | the bottom edge of cell row y is the top edge of row y + 1 |
| Mapping.ColumnsDisjoint | src/lib.rs:172-177 | distinct logical columns cover disjoint surface columns |
| Mapping.ColumnsCovered | src/lib.rs:172-177 | cells 0..N-1 leave no gap before the far edge of cell N-1 |
| Mapping.SurfaceColumnOwner | src/lib.rs:172-177 | every surface column belongs to exactly one logical column |
| Mapping.ColumnOwnerUnique | src/lib.rs:172-177 | two logical columns that own the same surface column are equal |
| Mapping.AdjacentCellsTile | src/lib.rs:172-177 | two horizontally adjacent cells cover exactly the two-cell block, with no overlap (cell membership being InCell) |
| Mapping.WrapPutPeriodic | src/lib.rs:186-189 | in wrap mode put one canvas width or height away paints the same buffer |
| Mapping.WrapPutMinusOne | src/lib.rs:186-189 | in wrap mode put(-1, -1, v) paints what put(cw-1, ch-1, v) paints |
| Mapping.GridIndex | src/lib.rs:67 | x + y*w inside a w x h grid is a buffer index, and / and % give x and y back |
| Mapping.TopLeftIndexInBuffer | src/lib.rs:110-111 | a top-left pixel inside the surface has an index inside the buffer |
| Mapping.Get | src/lib.rs:106-120 | get reads an element of the buffer |
| Mapping.ClampedGetTotal | src/lib.rs:108-115 | clamped get never panics on a non-empty buffer, and off the surface it reads the last element (GetIndex is len - 1) |
| Mapping.WrapTopLeftInside | src/lib.rs:116-119 | in wrap mode with ratio at least one every cell's top-left pixel is on the surface |
| Mapping.GetAfterPut | src/lib.rs:106-120 | with ratio at least one and the top-left pixel on the surface, get(x, y) after put(x, y, v) is v |
| Mapping.GetOtherCellUnaffected | src/lib.rs:155-206 | a put on one cell does not change what get reads on a different cell |
| Shapes.RowCellsAt | src/shapes.rs:40-43 | the inner loop visits w cells, cell i being (x + i, y) |
| Shapes.RectCellsAt | src/shapes.rs:36-46 | RectCells: Rect visits w*h cells, cell k being (x + k % w, y + k / w), so rows are outer and columns inner (the copy of Rect::draw in src/lib.rs:252-262 is the same loop) |
| Shapes.WalkStops | src/shapes.rs:84-99 | when any of the three breaks fires, the walk ends on the current cell |
| Shapes.WalkContinues | src/shapes.rs:87-102 | otherwise the walk is the current cell followed by the walk from the next state, which is closer to the target |
| Shapes.SetupOnTrack | src/shapes.rs:64-80 | the initial deltas, directions and error satisfy the Bresenham invariant |
| Shapes.NoEarlyBreak | src/shapes.rs:88-99 | on track neither inner break fires before the end point is reached |
| Shapes.XDoneError | src/shapes.rs:88-91 | with the x target reached and y not, 2*error < dy, so the x branch is skipped |
| Shapes.YDoneError | src/shapes.rs:96-99 | with the y target reached and x not, 2*error > dx, so the y branch is skipped |
| Shapes.StepOnTrack | src/shapes.rs:87-102 | one loop iteration keeps the Bresenham invariant |
| Shapes.ErrorUpdate | src/shapes.rs:92-101 | the error update follows the remaining distances |
| Shapes.WalkLength | src/shapes.rs:82-103 | Walk, the loop of Line::draw as a cell sequence, has max(remaining dx, remaining dy) + 1 cells |
| Shapes.WalkEnds | src/shapes.rs:82-103 | the walk ends exactly on (end_x, end_y) |
| Shapes.WalkSteps | src/shapes.rs:82-103 | the walk starts at the current cell, moves by king steps in the fixed directions and gets strictly closer to the target |
| Shapes.ConsStep | src/shapes.rs:82-103 | a closer king step in front of such a walk keeps both properties |
| Shapes.LineCellsShape | src/shapes.rs:59-104 | LineCells: Line starts at (x0, y0), ends at (x1, y1), visits max(abs(dx), abs(dy)) + 1 cells, moves by king steps and never revisits a cell |
| Shapes.DiagonalLine | src/shapes.rs:59-104 | the line from (0, 0) to (3, 3) is the diagonal |
| Surface.Render | src/lib.rs:149-152 | drawing keeps the buffer length |
| Surface.RenderCells | src/lib.rs:252-262 | drawing at a sequence of cells keeps the buffer length |
| Surface.RenderCellsAppend | src/shapes.rs:36-46 | drawing two runs of cells one after the other is drawing their concatenation |
| Surface.RenderCellsCons | src/shapes.rs:83 | drawing a run is drawing its first cell and then the rest |
| Surface.LineStop | src/shapes.rs:83-99 | when a break fires, what is left of the line is the one draw at the current cell |
| Surface.LineAdvance | src/shapes.rs:82-103 | otherwise what is left of the line is the draw at the current cell followed by the rest from the next state |
| Surface.PixelCellsFootprint | src/lib.rs:237-239 | a constant drawn at a cell sequence paints exactly the union of the cells' pixels and leaves all else alone |
| Surface.EmptyRectDrawsNothing | src/shapes.rs:36-46 | a Rect with zero width or height leaves the buffer unchanged |
| Surface.DiagonalLinePaintsBlocks | src/shapes.rs:59-104 | line(0, 0, 3, 3) on a 4x4 canvas over 8x8 paints exactly the four diagonal 2x2 blocks |
| Surface.DiagonalFootprint | src/lib.rs:172-177 | on that geometry, the pixel belongs to a diagonal cell exactly when its row and column halves agree |
| Surface.DoubledBlock | src/lib.rs:172-177 | on the 4x4-over-8x8 geometry, cell (i, i) is the 2x2 block at (2i, 2i) |
| Surface.DoubledSpan | src/lib.rs:172-177 | on that geometry, column and row i span surface lines 2i and 2i + 1 |
| Surface.ColumnsDoubled | src/lib.rs:175-177 | on that geometry, column i spans surface columns 2i and 2i + 1 |
| Surface.RowsDoubled | src/lib.rs:172-173 | on that geometry, row i spans surface rows 2i and 2i + 1 |
| Surface.ScaleEdgeDoubles | src/lib.rs:99-102 | with ratio 8 / 4, edge k is at 2k |
| Surface.RectRowStep | src/shapes.rs:38-45 | how the cells drawn so far grow in Rect's nested loops |
| Surface.RowSliceInside | src/shapes.rs:20-21 | every row slice of SolidRect lies inside the buffer |
| Surface.InRowSlicesNext | src/shapes.rs:20-22 | one more iteration adds exactly the next row slice |
| Surface.OriginReadable | src/lib.rs:106-120 | get(0, 0) never panics on a non-empty buffer and reads index 0 |
| Surface.ClearWithPixel | src/lib.rs:59-63 | clearing with a constant fills with it when the origin cell covers a pixel, and with the first element otherwise |
| Surface.DrawColour | src/lib.rs:336-350 | drawing an RGBu32 puts its packed value on the cell |
| Surface.Canvas.constructor | src/lib.rs:36-52 | new stores the buffer, the sizes and the mode, and its ratio is surface / canvas per axis |
| Surface.Canvas.Fill | src/lib.rs:55-57 | every buffer element becomes v |
| Surface.Canvas.Set | src/lib.rs:66-68 | only index x + y*surface width changes, to v |
| Surface.Canvas.ClampedRowSlice | src/lib.rs:175-181 | the indices one row iteration of clamped put writes are exactly that row's part of the cell |
| Surface.Canvas.FillClipped | src/lib.rs:178-182 | writes v at the indices of start..end below both the row limit and the buffer length; nothing else changes |
| Surface.Canvas.RowPrefixStep | src/lib.rs:193-202 | painting pixel (col, row) extends the painted prefix of the row by one column |
| Surface.Canvas.WrappedPixel | src/lib.rs:196-200 | in wrap mode the `%` leaves each pixel of the cell unchanged and the bounds check always passes |
| Surface.Canvas.PixelOfRow | src/lib.rs:193-199 | pixel (col, row) is the one index of the row whose column is col |
| Surface.Canvas.Put | src/lib.rs:155-206 | the buffer becomes Painted: v on exactly the cell's pixels, all else unchanged, in either mode |
| Surface.Canvas.PutClamped | src/lib.rs:155-184 | the clamped loops produce Painted, clipping at the end of each row and of the buffer |
| Surface.Canvas.PutWrapped | src/lib.rs:186-205 | the wrap loops produce Painted for the residue cell |
| Surface.Canvas.Clear | src/lib.rs:59-63 | every element becomes what get(0, 0) reads after d is drawn at the origin |
| Surface.Canvas.Draw | src/lib.rs:149-152 | the buffer becomes Render of d at (x, y) |
| Surface.Canvas.DrawCell | src/shapes.rs:41 | one inner draw extends the drawn run by one cell |
| Surface.Canvas.DrawRect | src/shapes.rs:36-46 | the buffer becomes d drawn at RectCells in row-major order; `rect` (src/lib.rs:209-211) draws the same |
| Surface.Canvas.DrawLine | src/shapes.rs:59-104 | the buffer becomes d drawn at every cell of Bresenham's walk, in order; `line` (src/lib.rs:214-224) draws the same |
| Surface.Canvas.SolidRect | src/shapes.rs:13-23 | c lands on exactly the row slices of the scaled block given by SolidRectLayout (start at canvas_to_surface(x, y), sizes canvas_to_surface(w, h)); nothing else changes |
| Colour.RGBu32.Value | src/lib.rs:336-350 | Rgb packs to a value below 2^24 whose bytes are red, green and blue; Pixel draws its value unchanged |
| Colour.RgbInjective | src/lib.rs:343-345 | two channel triples that pack to the same value are equal |
| Colour.NamedColours | src/lib.rs:330-334 | the named constants are the packed forms of their channel triples |

## Left out

- f32 arithmetic: the ratio and `round` are exact rationals and reals, so float rounding artefacts are not modelled.
- Integer widths: the model does not model i32 overflow in `x + 1`, `2 * error` or the deltas of `Line`, nor usize overflow in index arithmetic; integers are unbounded.
- Surface.Canvas.constructor: requires non-zero canvas extents and a buffer of exactly surface width times height. `Canvas::new` does not check either, and the source divides by the extents.
- Surface.Canvas.Set: requires x + y * surface width to be inside the buffer, because the indexing of src/lib.rs:67 panics otherwise.
- Surface.Canvas.Clear: requires a non-empty buffer, because `get(0, 0)` panics on an empty one.
- Surface.Canvas.Get: requires GetDefined, because src/lib.rs:113 panics on an empty buffer in clamped mode and src/lib.rs:118 panics on an index past the end in wrap mode.
- Surface.Canvas.Get: delegates to Mapping.Get and has no contract of its own; the properties of `get` are the lemmas about Mapping.Get.
- Mapping.Get: requires GetDefined for the same reason: both panics of src/lib.rs:113 and src/lib.rs:118 are excluded.
- Mapping.Get: its own contract only says that it reads a buffer element. What it reads is stated by ClampedGetTotal, GetAfterPut and GetOtherCellUnaffected.
- Surface.Canvas.SolidRect: the `self.w as i32` cast is not modelled (w and h are naturals), and the Color trait's `pixel()` is replaced by the value itself.
- Surface.Canvas.SolidRect: requires every row slice to fit in the buffer, because the slice indexing panics otherwise.
- `finish`, `get_mut`, `get_surface` and `get_surface_mut` are borrow plumbing with no behaviour beyond indexing.
- The generic `Draw` and `Color` traits become the `Drawable` datatype (a constant, a `Rect` or a `Line` of an inner drawable). User-defined drawables are not modelled.
- `SolidRect` is a method of its own rather than a `Drawable` case, so it cannot be nested inside `Rect` or `Line`.
- The `wrap` cargo feature is a build-time switch; here it is the runtime `Addressing` value of a canvas.
- The example programs and the texture sampler are not part of this model.

The example programs are demos driven by windowing event loops.
