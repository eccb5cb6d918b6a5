/** The pixel surface: a `Canvas` over a flat, row-major buffer, its
    accessors, the `put` primitive and the drawables built on it. */
module Surface {
  import opened Mapping
  import opened Shapes
  import Colour

  // ---------------------------------------------------------------------
  // Drawables and what drawing them does to a buffer
  // ---------------------------------------------------------------------

  /** Anything that can be drawn at a logical cell: a constant value, or a
      rectangle or line of some inner drawable (src/lib.rs:232-321). */
  datatype Drawable<T> =
    | Pixel(value: T)
    | Rect(w: nat, h: nat, inner: Drawable<T>)
    | Line(endX: int, endY: int, inner: Drawable<T>)

  /** The buffer after drawing `d` at (x, y). */
  function Render<T>(g: Geometry, s: seq<T>, x: int, y: int, d: Drawable<T>): (r: seq<T>)
    requires g.Valid()
    ensures |r| == |s|
    decreases d, 0, 0
  {
    match d
    case Pixel(v) => Painted(g, s, x, y, v)
    case Rect(w, h, inner) => RenderCells(g, s, RectCells(x, y, w, h), inner)
    case Line(ex, ey, inner) => RenderCells(g, s, LineCells(x, y, ex, ey), inner)
  }

  /** The buffer after drawing `d` at every cell of `cells`, in order. */
  function RenderCells<T>(g: Geometry, s: seq<T>, cells: seq<Cell>, d: Drawable<T>): (r: seq<T>)
    requires g.Valid()
    ensures |r| == |s|
    decreases d, 1, |cells|
  {
    if cells == [] then s
    else RenderCells(g, Render(g, s, cells[0].0, cells[0].1, d), cells[1..], d)
  }

  /** Drawing two runs of cells one after the other is drawing their
      concatenation. */
  lemma {:induction false} RenderCellsAppend<T>(g: Geometry, s: seq<T>, a: seq<Cell>, b: seq<Cell>, d: Drawable<T>)
    requires g.Valid()
    ensures RenderCells(g, s, a + b, d) == RenderCells(g, RenderCells(g, s, a, d), b, d)
    decreases |a|
  {
    if a != [] {
      assert (a + b)[1..] == a[1..] + b;
      RenderCellsAppend(g, Render(g, s, a[0].0, a[0].1, d), a[1..], b, d);
    } else {
      assert a + b == b;
    }
  }

  lemma RenderCellsCons<T>(g: Geometry, s: seq<T>, c: Cell, rest: seq<Cell>, d: Drawable<T>)
    requires g.Valid()
    ensures RenderCells(g, s, [c] + rest, d) == RenderCells(g, Render(g, s, c.0, c.1, d), rest, d)
  {
    assert ([c] + rest)[1..] == rest;
  }

  /** When the line loop stops on the current cell, drawing the rest of
      the walk is drawing that cell. */
  lemma LineStop<T>(g: Geometry, s: seq<T>, b: Bresenham, x: int, y: int, error: int, d: Drawable<T>)
    requires g.Valid() && b.dy <= 0 <= b.dx
    requires Heading(b.sx, x, b.x1) && Heading(b.sy, y, b.y1)
    requires (x == b.x1 && y == b.y1) || (2 * error >= b.dy && x == b.x1) || (2 * error <= b.dx && y == b.y1)
    ensures RenderCells(g, s, Walk(b, x, y, error), d) == Render(g, s, x, y, d)
  {
    WalkStops(b, x, y, error);
    RenderCellsCons(g, s, (x, y), [], d);
  }

  /** When the line loop goes on from (x, y, error) to (x', y', error'),
      drawing the rest of the walk is drawing the current cell and then
      the walk from the next state, which is closer to the target. */
  lemma LineAdvance<T>(g: Geometry, s: seq<T>, b: Bresenham, x: int, y: int, error: int,
                       x': int, y': int, error': int, d: Drawable<T>)
    requires g.Valid() && b.dy <= 0 <= b.dx
    requires Heading(b.sx, x, b.x1) && Heading(b.sy, y, b.y1)
    requires !(x == b.x1 && y == b.y1)
    requires !(2 * error >= b.dy && x == b.x1) && !(2 * error <= b.dx && y == b.y1)
    requires x' == if 2 * error >= b.dy then x + b.sx else x
    requires y' == if 2 * error <= b.dx then y + b.sy else y
    requires error' == error + (if 2 * error >= b.dy then b.dy else 0) + (if 2 * error <= b.dx then b.dx else 0)
    ensures Heading(b.sx, x', b.x1) && Heading(b.sy, y', b.y1)
    ensures Abs(b.x1 - x') + Abs(b.y1 - y') < Abs(b.x1 - x) + Abs(b.y1 - y)
    ensures RenderCells(g, s, Walk(b, x, y, error), d) == RenderCells(g, Render(g, s, x, y, d), Walk(b, x', y', error'), d)
  {
    WalkContinues(b, x, y, error, x', y', error');
    RenderCellsCons(g, s, (x, y), Walk(b, x', y', error'), d);
  }

  /** Drawing a constant value at a sequence of cells paints exactly the
      union of their cells' surface rectangles. */
  lemma {:induction false} PixelCellsFootprint<T>(g: Geometry, s: seq<T>, cells: seq<Cell>, v: T, k: nat)
    requires g.Valid() && k < |s|
    ensures RenderCells(g, s, cells, Pixel(v))[k] ==
      if exists i :: 0 <= i < |cells| && InCell(g, cells[i].0, cells[i].1, k) then v else s[k]
    decreases |cells|
  {
    if cells != [] {
      var rest := cells[1..];
      var first := Painted(g, s, cells[0].0, cells[0].1, v);
      PixelCellsFootprint(g, first, rest, v, k);
      if exists i :: 0 <= i < |rest| && InCell(g, rest[i].0, rest[i].1, k) {
        var i :| 0 <= i < |rest| && InCell(g, rest[i].0, rest[i].1, k);
        assert cells[i + 1] == rest[i];
      }
      if exists i :: 0 <= i < |cells| && InCell(g, cells[i].0, cells[i].1, k) {
        var i :| 0 <= i < |cells| && InCell(g, cells[i].0, cells[i].1, k);
        if i > 0 { assert rest[i - 1] == cells[i]; }
      }
    }
  }

  /** A rectangle with no width or no height draws nothing. */
  lemma EmptyRectDrawsNothing<T>(g: Geometry, s: seq<T>, x: int, y: int, w: nat, h: nat, d: Drawable<T>)
    requires g.Valid() && (w == 0 || h == 0)
    ensures Render(g, s, x, y, Rect(w, h, d)) == s
  {
    RectCellsAt(x, y, w, h);
  }

  /** `line(0, 0, 3, 3)` with a constant value on a 4x4 canvas over an 8x8
      surface paints exactly the four 2x2 diagonal blocks. */
  lemma DiagonalLinePaintsBlocks<T>(g: Geometry, s: seq<T>, v: T, k: nat)
    requires g == Geometry((8, 8), (4, 4), Clamp) && |s| == 64 && k < 64
    ensures Render(g, s, 0, 0, Line(3, 3, Pixel(v)))[k] ==
      if (k / 8) / 2 == (k % 8) / 2 then v else s[k]
  {
    DiagonalLine();
    PixelCellsFootprint(g, s, LineCells(0, 0, 3, 3), v, k);
    DiagonalFootprint(g, LineCells(0, 0, 3, 3), k);
  }

  lemma DiagonalFootprint(g: Geometry, cells: seq<Cell>, k: nat)
    requires g == Geometry((8, 8), (4, 4), Clamp) && k < 64
    requires cells == [(0, 0), (1, 1), (2, 2), (3, 3)]
    ensures (exists i :: 0 <= i < |cells| && InCell(g, cells[i].0, cells[i].1, k)) <==> (k / 8) / 2 == (k % 8) / 2
  {
    var row, col := k / 8, k % 8;
    forall i: nat | i < |cells|
      ensures cells[i] == (i, i)
      ensures InCell(g, i, i, k) <==> row / 2 == i && col / 2 == i
    {
      DoubledBlock(g, i, row, col, k);
    }
    if row / 2 == col / 2 {
      var i := row / 2;
      DivUnique(row, 2, i);
      assert cells[i] == (i, i);
    }
  }

  lemma DoubledBlock(g: Geometry, i: nat, row: nat, col: nat, k: nat)
    requires g == Geometry((8, 8), (4, 4), Clamp) && i < 4
    requires row == k / 8 && col == k % 8
    ensures InCell(g, i, i, k) <==> row / 2 == i && col / 2 == i
  {
    DoubledSpan(g, i);
    HalfBand(row, i);
    HalfBand(col, i);
  }

  /** On the 4x4-over-8x8 geometry logical column and row `i` cover surface
      columns and rows `2i` and `2i + 1`. */
  lemma DoubledSpan(g: Geometry, i: nat)
    requires g == Geometry((8, 8), (4, 4), Clamp) && i < 4
    ensures Columns(g, i) == (2 * i, 2 * i + 2) && Rows(g, i) == (2 * i, 2 * i + 2)
  {
    ColumnsDoubled(g, i);
    RowsDoubled(g, i);
  }

  lemma ColumnsDoubled(g: Geometry, i: nat)
    requires g.Valid() && g.mode == Clamp && g.surfaceSize.0 == 8 && g.canvasSize.0 == 4
    ensures Columns(g, i) == (2 * i, 2 * i + 2)
  {
    ScaleEdgeDoubles(i);
    ScaleEdgeDoubles(i + 1);
  }

  lemma RowsDoubled(g: Geometry, i: nat)
    requires g.Valid() && g.mode == Clamp && g.surfaceSize.1 == 8 && g.canvasSize.1 == 4
    ensures Rows(g, i) == (2 * i, 2 * i + 2)
  {
    ScaleEdgeDoubles(i);
    ScaleEdgeDoubles(i + 1);
  }

  lemma ScaleEdgeDoubles(k: nat)
    ensures ScaleEdge(k, 8, 4) == 2 * k
  {
    DivUnique(16 * k + 4, 8, 2 * k);
  }

  lemma HalfBand(r: nat, i: nat)
    ensures (2 * i <= r < 2 * i + 2) <==> r / 2 == i
  {
    if 2 * i <= r < 2 * i + 2 { DivUnique(r, 2, i); }
    if r / 2 == i { DivUnique(r, 2, r / 2); }
  }

  /** How the cells drawn so far grow by one in `rect`'s inner loop: an
      empty row adds nothing, cell (x + i, y + j) extends row j, and a full
      row j completes the first j + 1 rows. */
  lemma RectRowStep(x: int, y: int, w: nat, j: nat, i: nat)
    ensures RectCells(x, y, w, j) + RowCells(x, y + j, 0) == RectCells(x, y, w, j)
    ensures (RectCells(x, y, w, j) + RowCells(x, y + j, i)) + [(x + i, y + j)] ==
      RectCells(x, y, w, j) + RowCells(x, y + j, i + 1)
    ensures RectCells(x, y, w, j) + RowCells(x, y + j, w) == RectCells(x, y, w, j + 1)
  {
    assert RowCells(x, y + j, 0) == [];
    assert RowCells(x, y + j, i + 1) == RowCells(x, y + j, i) + [(x + i, y + j)];
  }

  // ---------------------------------------------------------------------
  // SolidRect (src/shapes.rs:3-24)
  // ---------------------------------------------------------------------

  /** Start index, row length and row count of a `SolidRect { w, h }` drawn
      at (x, y): the surface origin of (x, y) and the scaled size of (w, h),
      both through `canvas_to_surface`. */
  function SolidRectLayout(g: Geometry, x: int, y: int, w: nat, h: nat): (layout: (nat, nat, nat))
    requires g.Valid()
  {
    var origin := CanvasToSurface(g, x, y);
    var size := CanvasToSurface(g, w, h);
    (origin.1 * g.surfaceSize.0 + origin.0, size.0, size.1)
  }

  /** Index where row `r` of a block starting at `start` begins. */
  function RowStart(start: int, stride: nat, r: nat): int
  {
    start + r * stride
  }

  /** Index `k` lies in one of the first `rows` row slices of length
      `rowLen` that start `stride` apart from `start`. */
  predicate InRowSlices(start: int, rowLen: nat, stride: nat, rows: nat, k: int)
  {
    exists r: nat :: r < rows && RowStart(start, stride, r) <= k < RowStart(start, stride, r) + rowLen
  }

  /** Every row slice lies inside the buffer (otherwise the slice index of
      src/shapes.rs:21 panics). */
  predicate SolidRectFits(g: Geometry, len: nat, x: int, y: int, w: nat, h: nat)
    requires g.Valid()
  {
    var layout := SolidRectLayout(g, x, y, w, h);
    layout.2 == 0 || RowStart(layout.0, g.surfaceSize.0, layout.2 - 1) + layout.1 <= len
  }

  /** If the last row slice fits in the buffer, so does every earlier one. */
  lemma RowSliceInside(start: int, rowLen: nat, stride: nat, rows: nat, len: nat, i: nat)
    requires i < rows && RowStart(start, stride, rows - 1) + rowLen <= len
    ensures start + i * stride + rowLen <= len
    ensures i * stride >= 0
  {
    MulLeq(i, rows - 1, stride);
  }

  lemma InRowSlicesNext(start: int, rowLen: nat, stride: nat, rows: nat, k: int)
    ensures InRowSlices(start, rowLen, stride, rows + 1, k) <==>
      InRowSlices(start, rowLen, stride, rows, k) ||
      RowStart(start, stride, rows) <= k < RowStart(start, stride, rows) + rowLen
  {
    if RowStart(start, stride, rows) <= k < RowStart(start, stride, rows) + rowLen {
      assert rows < rows + 1;
    }
  }

  // ---------------------------------------------------------------------
  // The canvas
  // ---------------------------------------------------------------------

  /** A canvas over a borrowed buffer of `surfaceSize.0 * surfaceSize.1`
      pixels, addressed through a `canvasSize` logical grid. */
  class Canvas<T> {
    const buf: array<T>
    const surfaceSize: (nat, nat)
    const canvasSize: (nat, nat)
    const mode: Addressing

    function Geom(): (g: Geometry)
    {
      Geometry(surfaceSize, canvasSize, mode)
    }

    /** The canvas extents are non-zero and the buffer holds the surface. */
    predicate Valid()
    {
      Geom().Valid() && buf.Length == surfaceSize.0 * surfaceSize.1
    }

    /** `Canvas::new` (src/lib.rs:36-52). */
    constructor (buf: array<T>, surfaceSize: (nat, nat), canvasSize: (nat, nat), mode: Addressing)
      requires canvasSize.0 > 0 && canvasSize.1 > 0
      requires buf.Length == surfaceSize.0 * surfaceSize.1
      ensures this.buf == buf && this.surfaceSize == surfaceSize
      ensures this.canvasSize == canvasSize && this.mode == mode
      ensures Valid()
      ensures Geom().Ratio() == (surfaceSize.0 as real / canvasSize.0 as real, surfaceSize.1 as real / canvasSize.1 as real)
    {
      this.buf := buf;
      this.surfaceSize := surfaceSize;
      this.canvasSize := canvasSize;
      this.mode := mode;
    }

    /** `fill`: every element becomes `v`. */
    method Fill(v: T)
      modifies buf
      ensures forall k :: 0 <= k < buf.Length ==> buf[k] == v
    {
      forall k | 0 <= k < buf.Length {
        buf[k] := v;
      }
    }

    /** `set`: writes surface pixel (x, y) directly; only index
        x + y * surface width changes. */
    method Set(x: nat, y: nat, v: T)
      requires x + y * surfaceSize.0 < buf.Length
      modifies buf
      ensures buf[..] == old(buf[..])[x + y * surfaceSize.0 := v]
    {
      buf[x + y * surfaceSize.0] := v;
    }

    /** `get` (src/lib.rs:106-120). */
    function Get(x: int, y: int): (v: T)
      requires Valid() && GetDefined(Geom(), buf.Length, x, y)
      reads buf
    {
      Mapping.Get(Geom(), buf[..], x, y)
    }

    /** The indices of row `yIdx`'s slice that the clamped `put` writes are
        exactly that row's part of the cell. */
    static lemma ClampedRowSlice(sw: nat, yIdx: nat, c0: nat, c1: nat, k: nat)
      ensures (c0 + yIdx * sw <= k < c1 + yIdx * sw && k < (yIdx + 1) * sw) <==>
        (sw > 0 && k / sw == yIdx && c0 <= k % sw < c1)
    {
      if sw > 0 {
        if c0 + yIdx * sw <= k < (yIdx + 1) * sw {
          DivUnique(k, sw, yIdx);
        }
        if k / sw == yIdx {
          assert k == yIdx * sw + k % sw;
          assert (yIdx + 1) * sw == yIdx * sw + sw;
        }
      }
    }

    /** The inner loop of the clamping `put` (src/lib.rs:177-181): writes
        `v` at every index of start..end that is below both `limit` and
        the buffer length. */
    method FillClipped(start: nat, end: nat, limit: nat, v: T)
      requires start <= end
      modifies buf
      ensures forall k :: 0 <= k < buf.Length ==>
        buf[k] == if start <= k < end && k < limit then v else old(buf[k])
    {
      for idx := start to end
        invariant forall k :: 0 <= k < buf.Length ==>
          buf[k] == if start <= k < idx && k < limit then v else old(buf[k])
      {
        if idx < limit && idx < buf.Length {
          buf[idx] := v;
        }
      }
    }

    /** Cell rows from the first up to (not including) `upTo` are painted. */
    static predicate PaintedRows(g: Geometry, x: int, y: int, upTo: int, k: nat)
      requires g.Valid()
    {
      var sw := g.surfaceSize.0;
      sw > 0 && Rows(g, y).0 <= k / sw < upTo && Columns(g, x).0 <= k % sw < Columns(g, x).1
    }

    /** Rows before `row` of the cell are painted, and so is row `row` up
        to (not including) column `colEnd`. */
    static predicate PaintedRowPrefix(g: Geometry, x: int, y: int, row: int, colEnd: int, k: nat)
      requires g.Valid()
    {
      var sw := g.surfaceSize.0;
      PaintedRows(g, x, y, row, k) || (sw > 0 && k / sw == row && Columns(g, x).0 <= k % sw < colEnd)
    }

    /** Painting surface pixel (col, row) extends the painted prefix of
        row `row` by one column. */
    static lemma RowPrefixStep(g: Geometry, x: int, y: int, row: nat, col: nat, k: nat)
      requires g.Valid() && col < g.surfaceSize.0 && Columns(g, x).0 <= col
      requires Rows(g, y).0 <= row
      ensures PaintedRowPrefix(g, x, y, row, col + 1, k) <==>
        PaintedRowPrefix(g, x, y, row, col, k) || k == col + row * g.surfaceSize.0
    {
      PixelOfRow(g.surfaceSize.0, row, col, Columns(g, x).0, k);
    }

    /** In wrap mode every pixel of the cell is inside the surface, so the
        `%` of src/lib.rs:196-197 leaves it alone and `set` is always
        called. */
    static lemma WrappedPixel(sw: nat, sh: nat, col: nat, row: nat)
      requires col < sw && row < sh
      ensures col % sw == col && row % sh == row
      ensures col + row * sw < (row + 1) * sw && col + row * sw < sw * sh
    {
      GridIndex(col, 0, sw, 1);
      GridIndex(row, 0, sh, 1);
      GridIndex(col, row, sw, sh);
      assert (row + 1) * sw == row * sw + sw;
    }

    /** Surface pixel (col, row) is the one index of row `row` whose column
        is exactly `col`. */
    static lemma PixelOfRow(sw: nat, row: nat, col: nat, c0: nat, k: nat)
      requires col < sw && c0 <= col
      ensures (k / sw == row && c0 <= k % sw < col + 1) <==>
        (k / sw == row && c0 <= k % sw < col) || k == col + row * sw
    {
      GridIndex(col, row, sw, row + 1);
      if k / sw == row && k % sw == col {
        assert k == sw * (k / sw) + k % sw;
        assert sw * row == row * sw;
      }
    }

    /** `put` (src/lib.rs:155-206): fills the cell of logical (x, y) with
        `v`, clipping what falls outside a row or the buffer. The source
        selects one of two bodies by addressing mode at build time. */
    method Put(x: int, y: int, v: T)
      requires Valid()
      modifies buf
      ensures buf[..] == Painted(Geom(), old(buf[..]), x, y, v)
    {
      if mode == Clamp {
        PutClamped(x, y, v);
      } else {
        PutWrapped(x, y, v);
      }
    }

    /** The clamping body of `put` (src/lib.rs:155-184): row slices of the
        cell, each cut at the end of its surface row and of the buffer. */
    method PutClamped(x: int, y: int, v: T)
      requires Valid() && mode == Clamp
      modifies buf
      ensures buf[..] == Painted(Geom(), old(buf[..]), x, y, v)
    {
      var g := Geom();
      var sw, sh := surfaceSize.0, surfaceSize.1;
      var cw, ch := canvasSize.0, canvasSize.1;
      var rows, cols := Rows(g, y), Columns(g, x);
      var cx: nat := if x <= 0 then 0 else x;
      var cy: nat := if y <= 0 then 0 else y;
      assert rows == (ScaleEdge(cy, sh, ch), ScaleEdge(cy + 1, sh, ch));
      assert cols == (ScaleEdge(cx, sw, cw), ScaleEdge(cx + 1, sw, cw));
      for yIdx := ScaleEdge(cy, sh, ch) to ScaleEdge(cy + 1, sh, ch)
        invariant forall k :: 0 <= k < buf.Length ==>
          buf[k] == if PaintedRows(g, x, y, yIdx, k) then v else old(buf[k])
      {
        MulNonNeg(yIdx, sw);
        MulNonNeg(yIdx + 1, sw);
        var start := ScaleEdge(cx, sw, cw) + yIdx * sw;
        var end := ScaleEdge(cx + 1, sw, cw) + yIdx * sw;
        FillClipped(start, end, (yIdx + 1) * sw, v);
        forall k | 0 <= k < buf.Length
          ensures PaintedRows(g, x, y, yIdx + 1, k) <==> PaintedRows(g, x, y, yIdx, k) || (start <= k < end && k < (yIdx + 1) * sw)
        {
          ClampedRowSlice(sw, yIdx, cols.0, cols.1, k);
        }
      }
      assert buf[..] == Painted(g, old(buf[..]), x, y, v);
    }

    /** The wrapping body of `put` (src/lib.rs:186-205): the cell of (x, y)
        taken modulo the canvas size, written pixel by pixel with `set`. */
    method PutWrapped(x: int, y: int, v: T)
      requires Valid() && mode == Wrap
      modifies buf
      ensures buf[..] == Painted(Geom(), old(buf[..]), x, y, v)
    {
      var g := Geom();
      var sw, sh := surfaceSize.0, surfaceSize.1;
      var cw, ch := canvasSize.0, canvasSize.1;
      var rows, cols := Rows(g, y), Columns(g, x);
      var cx := ModV2(x, cw);
      var cy := ModV2(y, ch);
      assert rows == (ScaleEdge(cy, sh, ch), ScaleEdge(cy + 1, sh, ch));
      assert cols == (ScaleEdge(cx, sw, cw), ScaleEdge(cx + 1, sw, cw));
      EdgeBounds(cx + 1, sw, cw);
      EdgeBounds(cy + 1, sh, ch);
      for yIdx := ScaleEdge(cy, sh, ch) to ScaleEdge(cy + 1, sh, ch)
        invariant forall k :: 0 <= k < buf.Length ==>
          buf[k] == if PaintedRows(g, x, y, yIdx, k) then v else old(buf[k])
      {
        for xIdx := ScaleEdge(cx, sw, cw) to ScaleEdge(cx + 1, sw, cw)
          invariant forall k :: 0 <= k < buf.Length ==>
            buf[k] == if PaintedRowPrefix(g, x, y, yIdx, xIdx, k) then v else old(buf[k])
        {
          WrappedPixel(sw, sh, xIdx, yIdx);
          var xi := xIdx % sw;
          var yi := yIdx % sh;
          var idx := xi + yi * sw;
          ghost var before := buf[..];
          if idx < (yi + 1) * sw && idx < buf.Length {
            Set(xi, yi, v);
          }
          assert buf[..] == before[idx := v];
          forall k | 0 <= k < buf.Length
            ensures buf[k] == if PaintedRowPrefix(g, x, y, yIdx, xIdx + 1, k) then v else old(buf[k])
          {
            RowPrefixStep(g, x, y, yIdx, xIdx, k);
          }
        }
        forall k: nat | k < buf.Length
          ensures PaintedRowPrefix(g, x, y, yIdx, cols.1, k) <==> PaintedRows(g, x, y, yIdx + 1, k)
        {
        }
      }
      assert buf[..] == Painted(g, old(buf[..]), x, y, v);
    }

    /** `clear` (src/lib.rs:59-63): draws `d` at the origin, then fills the
        whole buffer with what `get(0, 0)` reads afterwards. */
    method Clear(d: Drawable<T>)
      requires Valid() && buf.Length > 0
      modifies buf
      ensures GetDefined(Geom(), buf.Length, 0, 0)
      ensures forall k :: 0 <= k < buf.Length ==>
        buf[k] == Mapping.Get(Geom(), Render(Geom(), old(buf[..]), 0, 0, d), 0, 0)
    {
      OriginReadable(Geom());
      Draw(0, 0, d);
      var v := Get(0, 0);
      Fill(v);
    }

    /** `draw`: paints `d` with its origin at (x, y). */
    method Draw(x: int, y: int, d: Drawable<T>)
      requires Valid()
      modifies buf
      ensures buf[..] == Render(Geom(), old(buf[..]), x, y, d)
      decreases d, 1, 0
    {
      match d
      case Pixel(v) => Put(x, y, v);
      case Rect(w, h, inner) => DrawRect(x, y, w, h, inner);
      case Line(ex, ey, inner) => DrawLine(x, y, ex, ey, inner);
    }

    /** One iteration of a shape's loop: draws `d` at (x, y) on top of the
        cells drawn so far. */
    method DrawCell(x: int, y: int, d: Drawable<T>, ghost initial: seq<T>, ghost drawn: seq<Cell>)
      requires Valid() && buf[..] == RenderCells(Geom(), initial, drawn, d)
      modifies buf
      ensures buf[..] == RenderCells(Geom(), initial, drawn + [(x, y)], d)
      decreases d, 1, 1
    {
      ghost var before := buf[..];
      Draw(x, y, d);
      RenderCellsAppend(Geom(), initial, drawn, [(x, y)], d);
      assert RenderCells(Geom(), before, [(x, y)], d) == buf[..];
    }

    /** `rect` and `Rect::draw`: draws `d` once per cell of the w x h block,
        rows outer, columns inner. */
    method DrawRect(x: int, y: int, w: nat, h: nat, d: Drawable<T>)
      requires Valid()
      modifies buf
      ensures buf[..] == RenderCells(Geom(), old(buf[..]), RectCells(x, y, w, h), d)
      decreases d, 2, 0
    {
      ghost var initial := buf[..];
      var yCounter := y;
      for j := 0 to h
        invariant yCounter == y + j
        invariant buf[..] == RenderCells(Geom(), initial, RectCells(x, y, w, j), d)
      {
        var xCounter := x;
        RectRowStep(x, y, w, j, 0);
        for i := 0 to w
          invariant xCounter == x + i
          invariant buf[..] == RenderCells(Geom(), initial, RectCells(x, y, w, j) + RowCells(x, y + j, i), d)
        {
          RectRowStep(x, y, w, j, i);
          DrawCell(xCounter, yCounter, d, initial, RectCells(x, y, w, j) + RowCells(x, y + j, i));
          xCounter := xCounter + 1;
        }
        RectRowStep(x, y, w, j, w);
        yCounter := yCounter + 1;
      }
    }

    /** `line` and `Line::draw`: Bresenham's walk from (x, y) to (x1, y1),
        drawing `d` at every cell it visits. */
    method DrawLine(x: int, y: int, x1: int, y1: int, d: Drawable<T>)
      requires Valid()
      modifies buf
      ensures buf[..] == RenderCells(Geom(), old(buf[..]), LineCells(x, y, x1, y1), d)
      decreases d, 2, 0
    {
      var x0, y0 := x, y;
      var dx := Abs(x1 - x0);
      var sx := if x0 < x1 then 1 else -1;
      var dy := -(Abs(y1 - y0) as int);
      var sy := if y0 < y1 then 1 else -1;
      var error := dx + dy;
      ghost var b := Bresenham(x1, y1, dx, dy, sx, sy);
      ghost var target := RenderCells(Geom(), buf[..], LineCells(x, y, x1, y1), d);
      assert b == Setup(x, y, x1, y1);
      assert RenderCells(Geom(), buf[..], Walk(b, x0, y0, error), d) == target;
      while true
        invariant b == Bresenham(x1, y1, dx, dy, sx, sy) && dy <= 0 <= dx
        invariant Heading(sx, x0, x1) && Heading(sy, y0, y1)
        invariant RenderCells(Geom(), buf[..], Walk(b, x0, y0, error), d) == target
        decreases Abs(x1 - x0) + Abs(y1 - y0)
      {
        ghost var xTop, yTop, errTop, before := x0, y0, error, buf[..];
        Draw(x0, y0, d);
        if x0 == x1 && y0 == y1 {
          LineStop(Geom(), before, b, xTop, yTop, errTop, d);
          break;
        }
        var e2 := 2 * error;
        if e2 >= dy {
          if x0 == x1 {
            LineStop(Geom(), before, b, xTop, yTop, errTop, d);
            break;
          }
          error := error + dy;
          x0 := x0 + sx;
        }
        if e2 <= dx {
          if y0 == y1 {
            LineStop(Geom(), before, b, xTop, yTop, errTop, d);
            break;
          }
          error := error + dx;
          y0 := y0 + sy;
        }
        LineAdvance(Geom(), before, b, xTop, yTop, errTop, x0, y0, error, d);
      }
    }

    /** `SolidRect::draw` (src/shapes.rs:13-23): writes `c` into `rows`
        slices of `rowLen` contiguous pixels, one surface row apart, from
        the surface origin of (x, y); nothing else changes. */
    method SolidRect(x: int, y: int, w: nat, h: nat, c: T)
      requires Valid() && SolidRectFits(Geom(), buf.Length, x, y, w, h)
      modifies buf
      ensures var layout := SolidRectLayout(Geom(), x, y, w, h);
        forall k :: 0 <= k < buf.Length ==>
          buf[k] == if InRowSlices(layout.0, layout.1, surfaceSize.0, layout.2, k) then c else old(buf[k])
    {
      var origin := CanvasToSurface(Geom(), x, y);
      var size := CanvasToSurface(Geom(), w, h);
      var start := origin.1 * surfaceSize.0 + origin.0;
      var end := start + size.0;
      var stride := surfaceSize.0;
      assert SolidRectLayout(Geom(), x, y, w, h) == (start, size.0, size.1);
      for i := 0 to size.1
        invariant forall k :: 0 <= k < buf.Length ==>
          buf[k] == if InRowSlices(start, size.0, stride, i, k) then c else old(buf[k])
      {
        RowSliceInside(start, size.0, stride, size.1, buf.Length, i);
        var lo, hi := start + i * stride, end + i * stride;
        assert 0 <= lo <= hi <= buf.Length;
        forall k | lo <= k < hi {
          buf[k] := c;
        }
        forall k | 0 <= k < buf.Length {
          InRowSlicesNext(start, size.0, stride, i, k);
        }
      }
    }
  }

  /** `RGBu32::draw` (src/lib.rs:336-350): puts the colour's packed 32-bit
      value on the cell of (x, y). */
  method DrawColour(canvas: Canvas<bv32>, x: int, y: int, c: Colour.RGBu32)
    requires canvas.Valid()
    modifies canvas.buf
    ensures canvas.buf[..] == Painted(canvas.Geom(), old(canvas.buf[..]), x, y, c.Value())
  {
    canvas.Put(x, y, c.Value());
  }

  /** `get(0, 0)` is always readable on a non-empty buffer. */
  lemma OriginReadable(g: Geometry)
    requires g.Valid() && g.surfaceSize.0 * g.surfaceSize.1 > 0
    ensures GetDefined(g, g.surfaceSize.0 * g.surfaceSize.1, 0, 0)
    ensures GetIndex(g, g.surfaceSize.0 * g.surfaceSize.1, 0, 0) == 0
  {
    var len := g.surfaceSize.0 * g.surfaceSize.1;
    EdgeBounds(0, g.surfaceSize.0, g.canvasSize.0);
    EdgeBounds(0, g.surfaceSize.1, g.canvasSize.1);
    DivUnique(0, g.canvasSize.0, 0);
    DivUnique(0, g.canvasSize.1, 0);
    assert g.surfaceSize.0 > 0 && g.surfaceSize.1 > 0;
  }

  /** Clearing with a constant value fills the buffer with that value when
      the origin cell covers at least one pixel, and otherwise with the
      buffer's first element. */
  lemma ClearWithPixel<T>(g: Geometry, s: seq<T>, v: T)
    requires g.Valid() && |s| == g.surfaceSize.0 * g.surfaceSize.1 && |s| > 0
    ensures GetDefined(g, |s|, 0, 0)
    ensures Mapping.Get(g, Render(g, s, 0, 0, Pixel(v)), 0, 0) ==
      if Columns(g, 0).1 > 0 && Rows(g, 0).1 > 0 then v else s[0]
  {
    OriginReadable(g);
    DivUnique(0, g.canvasSize.0, 0);
    DivUnique(0, g.canvasSize.1, 0);
    GridIndex(0, 0, g.surfaceSize.0, g.surfaceSize.1);
  }
}
