/** Coordinate mapping between the logical canvas grid and the pixel surface:
    the scale ratio, round-half-up, the two addressing modes, and the
    rectangle of surface pixels that one logical cell covers. */
module Mapping {

  // ---------------------------------------------------------------------
  // Integer helpers
  // ---------------------------------------------------------------------

  /** Euclidean division is determined by the bracket q*b <= k < (q+1)*b. */
  lemma DivUnique(k: int, b: int, q: int)
    requires b > 0
    requires q * b <= k < (q + 1) * b
    ensures k / b == q && k % b == k - q * b
  {
    var q', m := k / b, k % b;
    assert k == q' * b + m && 0 <= m < b;
    if q' > q {
      MulLeq(q + 1, q', b);
      assert false;
    } else if q' < q {
      MulLeq(q' + 1, q, b);
      assert false;
    }
  }

  lemma MulLeq(a: int, c: int, b: int)
    requires a <= c && b >= 0
    ensures a * b <= c * b
  {
    assert c * b - a * b == (c - a) * b;
  }

  /** Division by a positive number is monotone. */
  lemma DivMono(a: int, a': int, d: int)
    requires d > 0 && a <= a'
    ensures a / d <= a' / d
  {
    var q, q' := a / d, a' / d;
    assert a == q * d + a % d && a' == q' * d + a' % d;
    if q' < q {
      MulLeq(q' + 1, q, d);
      assert false;
    }
  }

  /** Row-major addressing: a column inside a row of width `w` and a row
      inside a grid of height `h` give an index inside the grid, and the
      index gives them back. */
  lemma GridIndex(col: nat, row: nat, w: nat, h: nat)
    requires col < w
    ensures (col + row * w) / w == row && (col + row * w) % w == col
    ensures row < h ==> col + row * w < w * h
  {
    assert (row + 1) * w == row * w + w;
    DivUnique(col + row * w, w, row);
    if row < h {
      MulLeq(row + 1, h, w);
      assert h * w == w * h;
    }
  }

  function Abs(n: int): (a: nat) { if n < 0 then -n else n }

  function Max(a: int, b: int): (m: int) { if a < b then b else a }

  // ---------------------------------------------------------------------
  // Rounding and scaling
  // ---------------------------------------------------------------------

  /** `round` of src/lib.rs:20-27: truncate toward zero (the cast to an
      integer), then add one when what was cut off is at least one half.
      For a non-negative number the result is the nearest integer, halves
      going up. */
  function Round(n: real): (r: int)
    ensures n >= 0.0 ==> r as real - 0.5 <= n < r as real + 0.5
  {
    var trunc := if n >= 0.0 then n.Floor else -((-n).Floor);
    if n - trunc as real >= 0.5 then trunc + 1 else trunc
  }

  /** The surface coordinate of logical edge `k` on an axis whose surface
      extent is `s` and canvas extent is `c`: round(k * s/c), computed
      exactly in integers (see ScaleEdgeIsRound). */
  function ScaleEdge(k: nat, s: nat, c: nat): (edge: nat)
    requires c > 0
  {
    (2 * k * s + c) / (2 * c)
  }

  /** The integer formula is exactly the source's rounding applied to the
      exact product of the coordinate and the ratio s/c. */
  lemma ScaleEdgeIsRound(k: nat, s: nat, c: nat)
    requires c > 0
    ensures ScaleEdge(k, s, c) == RoundScaled(k, s as real / c as real)
  {
    RoundScaledQuotient(k, s, c);
    RoundOfQuotient(k * s, c);
    ScaleEdgeHalfUp(k, s, c);
  }

  lemma RoundScaledQuotient(k: nat, s: nat, c: nat)
    requires c > 0
    ensures RoundScaled(k, s as real / c as real) == Round((k * s) as real / c as real)
  {
    ProductOverDivisor(k, s, c);
    RoundScaledAt(k, s as real / c as real, (k * s) as real / c as real);
  }

  lemma RoundScaledAt(k: nat, ratio: real, product: real)
    requires k as real * ratio == product
    ensures RoundScaled(k, ratio) == Round(product)
  {
  }

  /** Rounding an exact quotient p/c: its floor, plus one when the remainder
      is at least half the divisor. */
  lemma RoundOfQuotient(p: nat, c: nat)
    requires c > 0
    ensures Round(p as real / c as real) == if 2 * (p % c) >= c then p / c + 1 else p / c
  {
    var f, m := p / c, p % c;
    SplitFraction(f, m, c);
    assert f * c + m == p;
    FracHalf(m, c);
    RoundOfSplit(f, m as real / c as real);
  }

  lemma RealMulNonNeg(a: real, b: real)
    requires a >= 0.0 && b >= 0.0
    ensures a * b >= 0.0
  {
  }

  /** A remainder over its divisor is a fraction in [0, 1), at least one half
      exactly when twice the remainder reaches the divisor. */
  lemma FracHalf(m: nat, c: nat)
    requires m < c
    ensures 0.0 <= m as real / c as real < 1.0
    ensures (2 * m >= c) == (m as real / c as real >= 0.5)
  {
    var mr, cr := m as real, c as real;
    var fr := mr / cr;
    assert fr * cr == mr;
    assert 2 * m >= c <==> 2.0 * mr >= cr;
    if fr < 0.5 {
      assert (0.5 - fr) * cr > 0.0;
      assert (0.5 - fr) * cr == 0.5 * cr - fr * cr;
    } else {
      assert (fr - 0.5) * cr == fr * cr - 0.5 * cr;
      RealMulNonNeg(fr - 0.5, cr);
    }
    if fr >= 1.0 {
      assert (fr - 1.0) * cr == fr * cr - cr;
      RealMulNonNeg(fr - 1.0, cr);
    }
  }

  lemma ProductOverDivisor(k: nat, s: nat, c: nat)
    requires c > 0
    ensures k as real * (s as real / c as real) == (k * s) as real / c as real
  {
    assert (k * s) as real == k as real * s as real;
  }

  lemma SplitFraction(f: nat, m: nat, c: nat)
    requires c > 0
    ensures (f * c + m) as real / c as real == f as real + m as real / c as real
  {
    assert (f * c + m) as real == f as real * c as real + m as real;
  }

  lemma RoundOfSplit(f: nat, fr: real)
    requires 0.0 <= fr < 1.0
    ensures Round(f as real + fr) == if fr >= 0.5 then f + 1 else f
  {
    assert (f as real + fr).Floor == f;
  }

  /** Rounding the scaled edge agrees with the floor-and-fraction description:
      floor(k*s/c) when the fractional part is below one half, one more
      otherwise. */
  lemma {:induction false} ScaleEdgeHalfUp(k: nat, s: nat, c: nat)
    requires c > 0
    ensures 2 * ((k * s) % c) < c ==> ScaleEdge(k, s, c) == (k * s) / c
    ensures 2 * ((k * s) % c) >= c ==> ScaleEdge(k, s, c) == (k * s) / c + 1
  {
    var f, m := (k * s) / c, (k * s) % c;
    assert k * s == f * c + m;
    if 2 * m >= c {
      DivUnique(2 * k * s + c, 2 * c, f + 1);
    } else {
      DivUnique(2 * k * s + c, 2 * c, f);
    }
  }

  /** Edges never move left as the logical coordinate grows. */
  lemma ScaleEdgeMono(k: nat, k': nat, s: nat, c: nat)
    requires c > 0 && k <= k'
    ensures ScaleEdge(k, s, c) <= ScaleEdge(k', s, c)
  {
    MulLeq(k, k', s);
    DivMono(2 * k * s + c, 2 * k' * s + c, 2 * c);
  }

  /** With a ratio of at least one every cell is at least one pixel wide. */
  lemma ScaleEdgeStep(k: nat, s: nat, c: nat)
    requires 0 < c <= s
    ensures ScaleEdge(k, s, c) < ScaleEdge(k + 1, s, c)
  {
    var a := 2 * k * s + c;
    assert 2 * (k + 1) * s + c == a + 2 * s;
    DivMono(a + 2 * c, a + 2 * s, 2 * c);
    var q := a / (2 * c);
    assert a == q * (2 * c) + a % (2 * c);
    DivUnique(a + 2 * c, 2 * c, q + 1);
  }

  /** The far edge of the last logical cell is the far edge of the surface. */
  lemma ScaleEdgeFull(s: nat, c: nat)
    requires c > 0
    ensures ScaleEdge(c, s, c) == s
  {
    DivUnique(2 * c * s + c, 2 * c, s);
  }

  /** A surface of extent zero maps every edge to zero. */
  lemma ScaleEdgeEmpty(k: nat, c: nat)
    requires c > 0
    ensures ScaleEdge(k, 0, c) == 0
  {
    DivUnique(c, 2 * c, 0);
  }

  // ---------------------------------------------------------------------
  // Wrap-around arithmetic
  // ---------------------------------------------------------------------

  /** Rust's `%` on signed integers: the remainder truncates toward zero and
      takes the sign of the dividend. */
  function Rem(a: int, b: int): (r: int)
    requires b > 0
    ensures -b < r < b
    ensures a >= 0 ==> 0 <= r
    ensures a <= 0 ==> r <= 0
    ensures (a - r) % b == 0
  {
    RemDividesDifference(a, b);
    if a >= 0 then a % b else -((-a) % b)
  }

  /** The dividend and its truncating remainder differ by a multiple of
      the divisor. */
  lemma RemDividesDifference(a: int, b: int)
    requires b > 0
    ensures (a - (if a >= 0 then a % b else -((-a) % b))) % b == 0
  {
    if a >= 0 {
      var q := a / b;
      assert a - a % b == q * b;
      DivUnique(q * b, b, q);
    } else {
      var q := (-a) / b;
      assert a + (-a) % b == (-q) * b;
      DivUnique((-q) * b, b, -q);
    }
  }

  /** `modv2` of src/lib.rs:30-32: `((a % b) + b) % b` with Rust's remainder.
      The result is the Euclidean residue of `a`. */
  function ModV2(a: int, b: int): (r: int)
    requires b > 0
    ensures 0 <= r < b
    ensures r == a % b
  {
    ModV2IsEuclidean(a, b);
    Rem(Rem(a, b) + b, b)
  }

  lemma ModV2IsEuclidean(a: int, b: int)
    requires b > 0
    ensures Rem(Rem(a, b) + b, b) == a % b
  {
    if a >= 0 {
      var q := a / b;
      assert a == q * b + a % b;
      DivUnique(a % b + b, b, 1);
    } else {
      var q, m := (-a) / b, (-a) % b;
      assert -a == q * b + m;
      if m == 0 {
        DivUnique(a, b, -q);
        DivUnique(b, b, 1);
      } else {
        DivUnique(a, b, -q - 1);
        DivUnique(b - m, b, 0);
      }
    }
  }

  /** Shifting by one period does not change the residue. */
  lemma {:induction false} ModV2Periodic(a: int, b: int)
    requires b > 0
    ensures ModV2(a - b, b) == ModV2(a, b)
    ensures ModV2(a + b, b) == ModV2(a, b)
  {
    var q := a / b;
    assert a == q * b + a % b;
    assert (q - 1) * b == q * b - b && (q + 1) * b == q * b + b && (q + 2) * b == q * b + 2 * b;
    DivUnique(a - b, b, q - 1);
    DivUnique(a + b, b, q + 1);
  }

  // ---------------------------------------------------------------------
  // Geometry of a canvas
  // ---------------------------------------------------------------------

  /** How logical coordinates outside the canvas are treated. */
  datatype Addressing = Clamp | Wrap

  /** The sizes a canvas is built with and its addressing mode. */
  datatype Geometry = Geometry(surfaceSize: (nat, nat), canvasSize: (nat, nat), mode: Addressing)
  {
    /** The source divides by both canvas extents. */
    predicate Valid() { canvasSize.0 > 0 && canvasSize.1 > 0 }

    /** Per-axis scale factor surface / canvas. */
    function Ratio(): (real, real)
      requires Valid()
    {
      (surfaceSize.0 as real / canvasSize.0 as real, surfaceSize.1 as real / canvasSize.1 as real)
    }

    /** Every cell covers at least one surface pixel on both axes. */
    predicate Magnifies() { canvasSize.0 <= surfaceSize.0 && canvasSize.1 <= surfaceSize.1 }
  }

  /** The logical coordinate an axis actually scales: non-positive values
      become 0 when clamped; the Euclidean residue when wrapping. */
  function Normalize(mode: Addressing, k: int, c: nat): (n: nat)
    requires c > 0
    ensures mode == Wrap ==> n < c
    ensures mode == Clamp ==> n == Max(k, 0)
    ensures mode == Wrap ==> n == k % c
  {
    match mode
    case Clamp => if k <= 0 then 0 else k
    case Wrap => ModV2(k, c)
  }

  /** `canvas_to_surface` (src/lib.rs:72-103): the top-left surface pixel
      of logical cell (x, y). */
  function CanvasToSurface(g: Geometry, x: int, y: int): (r: (nat, nat))
    requires g.Valid()
    ensures g.mode == Clamp && x <= 0 ==> r.0 == 0
    ensures g.mode == Clamp && y <= 0 ==> r.1 == 0
    ensures g.mode == Wrap ==> r.0 <= g.surfaceSize.0 && r.1 <= g.surfaceSize.1
  {
    var nx := Normalize(g.mode, x, g.canvasSize.0);
    var ny := Normalize(g.mode, y, g.canvasSize.1);
    EdgeBounds(nx, g.surfaceSize.0, g.canvasSize.0);
    EdgeBounds(ny, g.surfaceSize.1, g.canvasSize.1);
    (ScaleEdge(nx, g.surfaceSize.0, g.canvasSize.0), ScaleEdge(ny, g.surfaceSize.1, g.canvasSize.1))
  }

  /** The surface coordinate is the normalized logical coordinate times the
      per-axis ratio, rounded half up, as src/lib.rs:99-102 computes it but
      in exact arithmetic. */
  lemma CanvasToSurfaceRounds(g: Geometry, x: int, y: int)
    requires g.Valid()
    ensures CanvasToSurface(g, x, y).0 == RoundScaled(Normalize(g.mode, x, g.canvasSize.0), g.Ratio().0)
    ensures CanvasToSurface(g, x, y).1 == RoundScaled(Normalize(g.mode, y, g.canvasSize.1), g.Ratio().1)
  {
    var nx, ny := Normalize(g.mode, x, g.canvasSize.0), Normalize(g.mode, y, g.canvasSize.1);
    var ratio := g.Ratio();
    var p := CanvasToSurface(g, x, y);
    assert p.0 == ScaleEdge(nx, g.surfaceSize.0, g.canvasSize.0);
    assert p.1 == ScaleEdge(ny, g.surfaceSize.1, g.canvasSize.1);
    ScaleEdgeIsRound(nx, g.surfaceSize.0, g.canvasSize.0);
    ScaleEdgeIsRound(ny, g.surfaceSize.1, g.canvasSize.1);
  }

  /** `round(k as f32 * ratio)` as the source writes it, in exact arithmetic. */
  function RoundScaled(k: nat, ratio: real): (r: int) { Round(k as real * ratio) }

  lemma ScaleEdgeZero(s: nat, c: nat)
    requires c > 0
    ensures ScaleEdge(0, s, c) == 0
  {
    DivUnique(c, 2 * c, 0);
  }

  /** The first edge is at 0 and no edge inside the canvas passes the surface. */
  lemma EdgeBounds(n: nat, s: nat, c: nat)
    requires c > 0
    ensures n == 0 ==> ScaleEdge(n, s, c) == 0
    ensures n <= c ==> ScaleEdge(n, s, c) <= s
  {
    ScaleEdgeZero(s, c);
    if n <= c {
      ScaleEdgeMono(n, c, s, c);
      ScaleEdgeFull(s, c);
    }
  }

  /** In wrap mode a coordinate one canvas width (or height) away lands on
      the same surface pixel. */
  lemma WrapPeriodic(g: Geometry, x: int, y: int)
    requires g.Valid() && g.mode == Wrap
    ensures CanvasToSurface(g, x - g.canvasSize.0, y) == CanvasToSurface(g, x, y)
    ensures CanvasToSurface(g, x, y - g.canvasSize.1) == CanvasToSurface(g, x, y)
  {
    ModV2Periodic(x, g.canvasSize.0);
    ModV2Periodic(y, g.canvasSize.1);
  }

  // ---------------------------------------------------------------------
  // The rectangle of surface pixels covered by one logical cell
  // ---------------------------------------------------------------------

  /** First and one-past-last surface column of logical column `x`; both
      edges are rounded independently (src/lib.rs:172-177). */
  function Columns(g: Geometry, x: int): (span: (nat, nat))
    requires g.Valid()
    ensures span.0 <= span.1
    ensures span.0 == CanvasToSurface(g, x, 0).0
  {
    var n := Normalize(g.mode, x, g.canvasSize.0);
    ScaleEdgeMono(n, n + 1, g.surfaceSize.0, g.canvasSize.0);
    (ScaleEdge(n, g.surfaceSize.0, g.canvasSize.0), ScaleEdge(n + 1, g.surfaceSize.0, g.canvasSize.0))
  }

  /** First and one-past-last surface row of logical row `y`. */
  function Rows(g: Geometry, y: int): (span: (nat, nat))
    requires g.Valid()
    ensures span.0 <= span.1
    ensures span.0 == CanvasToSurface(g, 0, y).1
  {
    var n := Normalize(g.mode, y, g.canvasSize.1);
    ScaleEdgeMono(n, n + 1, g.surfaceSize.1, g.canvasSize.1);
    (ScaleEdge(n, g.surfaceSize.1, g.canvasSize.1), ScaleEdge(n + 1, g.surfaceSize.1, g.canvasSize.1))
  }

  /** Surface index `k` lies in the cell of logical (x, y): its row is in
      the cell's rows and its column in the cell's columns. Columns past
      the end of a row are never part of a cell. */
  predicate InCell(g: Geometry, x: int, y: int, k: nat)
    requires g.Valid()
  {
    var sw := g.surfaceSize.0;
    sw > 0 && Rows(g, y).0 <= k / sw < Rows(g, y).1 && Columns(g, x).0 <= k % sw < Columns(g, x).1
  }

  /** The buffer after `put(x, y, v)`: `v` on every index of the cell,
      everything else as it was. */
  function Painted<T>(g: Geometry, s: seq<T>, x: int, y: int, v: T): (r: seq<T>)
    requires g.Valid()
    ensures |r| == |s|
    ensures forall k :: 0 <= k < |s| ==> r[k] == if InCell(g, x, y, k) then v else s[k]
  {
    seq(|s|, k requires 0 <= k < |s| => if InCell(g, x, y, k) then v else s[k])
  }

  // ---------------------------------------------------------------------
  // Tiling
  // ---------------------------------------------------------------------

  /** The right edge of a cell is the left edge of the next one, in clamped
      mode for all non-negative columns and in wrap mode inside the canvas. */
  lemma AdjacentEdgesMeet(g: Geometry, x: int)
    requires g.Valid()
    requires (g.mode == Clamp && x >= 0) || (g.mode == Wrap && 0 <= x < g.canvasSize.0 - 1)
    ensures Columns(g, x).1 == Columns(g, x + 1).0
  {
    if g.mode == Wrap {
      DivUnique(x, g.canvasSize.0, 0);
      DivUnique(x + 1, g.canvasSize.0, 0);
    }
  }

  /** The bottom edge of a cell is the top edge of the cell below it, under
      the same conditions as for columns. */
  lemma AdjacentRowEdgesMeet(g: Geometry, y: int)
    requires g.Valid()
    requires (g.mode == Clamp && y >= 0) || (g.mode == Wrap && 0 <= y < g.canvasSize.1 - 1)
    ensures Rows(g, y).1 == Rows(g, y + 1).0
  {
    if g.mode == Wrap {
      DivUnique(y, g.canvasSize.1, 0);
      DivUnique(y + 1, g.canvasSize.1, 0);
    }
  }

  /** Distinct logical columns cover disjoint surface columns. */
  lemma ColumnsDisjoint(s: nat, c: nat, n: nat, n': nat)
    requires c > 0 && n < n'
    ensures ScaleEdge(n + 1, s, c) <= ScaleEdge(n', s, c)
  {
    ScaleEdgeMono(n + 1, n', s, c);
  }

  /** Logical column `n` owns surface column `col`: `col` lies between its
      left and right edge. */
  predicate OwnsColumn(s: nat, c: nat, n: nat, col: nat)
    requires c > 0
  {
    ScaleEdge(n, s, c) <= col < ScaleEdge(n + 1, s, c)
  }

  /** Cells 0 .. N-1 together cover every surface column before the far edge
      of cell N-1: there are no gaps. */
  lemma {:induction false} ColumnsCovered(s: nat, c: nat, bound: nat, col: nat)
    requires c > 0
    requires col < ScaleEdge(bound, s, c)
    ensures exists n: nat :: n < bound && OwnsColumn(s, c, n, col)
  {
    if bound == 0 {
      ScaleEdgeZero(s, c);
      assert false;
    } else if col < ScaleEdge(bound - 1, s, c) {
      ColumnsCovered(s, c, bound - 1, col);
    } else {
      var n: nat := bound - 1;
      assert OwnsColumn(s, c, n, col);
    }
  }

  /** Every surface column lies in exactly one logical column's span. */
  lemma SurfaceColumnOwner(s: nat, c: nat, col: nat)
    requires c > 0 && col < s
    ensures exists n: nat :: n < c && OwnsColumn(s, c, n, col)
    ensures forall n: nat, n': nat :: OwnsColumn(s, c, n, col) && OwnsColumn(s, c, n', col) ==> n == n'
  {
    ScaleEdgeFull(s, c);
    ColumnsCovered(s, c, c, col);
    forall n: nat, n': nat | OwnsColumn(s, c, n, col) && OwnsColumn(s, c, n', col)
      ensures n == n'
    {
      ColumnOwnerUnique(s, c, col, n, n');
    }
  }

  lemma ColumnOwnerUnique(s: nat, c: nat, col: nat, n: nat, n': nat)
    requires c > 0
    requires OwnsColumn(s, c, n, col) && OwnsColumn(s, c, n', col)
    ensures n == n'
  {
    if n < n' { ColumnsDisjoint(s, c, n, n'); }
    if n' < n { ColumnsDisjoint(s, c, n', n); }
  }

  /** Putting two horizontally adjacent cells covers exactly the surface
      pixels of the single two-cell-wide block: no gap, no overlap. */
  lemma AdjacentCellsTile(g: Geometry, x: int, y: int, k: nat)
    requires g.Valid()
    requires (g.mode == Clamp && x >= 0) || (g.mode == Wrap && 0 <= x < g.canvasSize.0 - 1)
    ensures InCell(g, x, y, k) || InCell(g, x + 1, y, k) <==>
      g.surfaceSize.0 > 0 && Rows(g, y).0 <= k / g.surfaceSize.0 < Rows(g, y).1 &&
      Columns(g, x).0 <= k % g.surfaceSize.0 < Columns(g, x + 1).1
    ensures !(InCell(g, x, y, k) && InCell(g, x + 1, y, k))
  {
    AdjacentEdgesMeet(g, x);
  }

  /** In wrap mode, putting one canvas width to the left paints the same
      pixels; in particular `put(-1, -1)` equals `put(cw-1, ch-1)`. */
  lemma WrapPutPeriodic<T>(g: Geometry, s: seq<T>, x: int, y: int, v: T)
    requires g.Valid() && g.mode == Wrap
    ensures Painted(g, s, x - g.canvasSize.0, y, v) == Painted(g, s, x, y, v)
    ensures Painted(g, s, x, y - g.canvasSize.1, v) == Painted(g, s, x, y, v)
  {
    ModV2Periodic(x, g.canvasSize.0);
    ModV2Periodic(y, g.canvasSize.1);
  }

  lemma WrapPutMinusOne<T>(g: Geometry, s: seq<T>, v: T)
    requires g.Valid() && g.mode == Wrap
    ensures Painted(g, s, -1, -1, v) == Painted(g, s, g.canvasSize.0 - 1, g.canvasSize.1 - 1, v)
  {
    var cw, ch := g.canvasSize.0, g.canvasSize.1;
    DivUnique(-1, cw, -1);
    DivUnique(-1, ch, -1);
    DivUnique(cw - 1, cw, 0);
    DivUnique(ch - 1, ch, 0);
  }

  // ---------------------------------------------------------------------
  // Reading a cell back
  // ---------------------------------------------------------------------

  /** Whether the top-left pixel of cell (x, y) is inside the surface. */
  predicate TopLeftInside(g: Geometry, x: int, y: int)
    requires g.Valid()
  {
    var p := CanvasToSurface(g, x, y);
    p.0 < g.surfaceSize.0 && p.1 < g.surfaceSize.1
  }

  /** The buffer index `get(x, y)` reads (src/lib.rs:106-120): the cell's
      top-left pixel; in clamped mode, when that pixel is outside the
      surface, the last element of the buffer. */
  function GetIndex(g: Geometry, len: nat, x: int, y: int): (i: int)
    requires g.Valid()
    requires len == g.surfaceSize.0 * g.surfaceSize.1
  {
    var p := CanvasToSurface(g, x, y);
    if g.mode == Clamp && !TopLeftInside(g, x, y) then len - 1 else p.0 + p.1 * g.surfaceSize.0
  }

  /** When `get` does not panic: in clamped mode the buffer must be
      non-empty; in wrap mode the computed index must exist. */
  predicate GetDefined(g: Geometry, len: nat, x: int, y: int)
    requires g.Valid()
  {
    len == g.surfaceSize.0 * g.surfaceSize.1 && 0 <= GetIndex(g, len, x, y) < len
  }

  /** A top-left pixel inside the surface has an index inside the buffer. */
  lemma TopLeftIndexInBuffer(g: Geometry, x: int, y: int)
    requires g.Valid() && TopLeftInside(g, x, y)
    ensures var p := CanvasToSurface(g, x, y);
      p.0 + p.1 * g.surfaceSize.0 < g.surfaceSize.0 * g.surfaceSize.1
  {
    var p := CanvasToSurface(g, x, y);
    GridIndex(p.0, p.1, g.surfaceSize.0, g.surfaceSize.1);
  }

  /** `get` on the pixel buffer `s`. */
  function Get<T>(g: Geometry, s: seq<T>, x: int, y: int): (r: T)
    requires g.Valid() && GetDefined(g, |s|, x, y)
    ensures r in s
  {
    s[GetIndex(g, |s|, x, y)]
  }

  /** In clamped mode `get` never panics on a non-empty buffer, and reads the
      last element whenever the cell's top-left pixel is off the surface. */
  lemma ClampedGetTotal<T>(g: Geometry, s: seq<T>, x: int, y: int)
    requires g.Valid() && g.mode == Clamp
    requires |s| == g.surfaceSize.0 * g.surfaceSize.1 && |s| > 0
    ensures GetDefined(g, |s|, x, y)
    ensures !TopLeftInside(g, x, y) ==> Get(g, s, x, y) == s[|s| - 1]
  {
    if TopLeftInside(g, x, y) { TopLeftIndexInBuffer(g, x, y); }
  }

  /** In wrap mode with a ratio of at least one, every cell's top-left pixel
      is inside the surface. */
  lemma WrapTopLeftInside(g: Geometry, x: int, y: int)
    requires g.Valid() && g.mode == Wrap && g.Magnifies()
    ensures TopLeftInside(g, x, y)
  {
    var cw, ch := g.canvasSize.0, g.canvasSize.1;
    var nx, ny := ModV2(x, cw), ModV2(y, ch);
    ScaleEdgeStep(nx, g.surfaceSize.0, cw);
    ScaleEdgeMono(nx + 1, cw, g.surfaceSize.0, cw);
    ScaleEdgeFull(g.surfaceSize.0, cw);
    ScaleEdgeStep(ny, g.surfaceSize.1, ch);
    ScaleEdgeMono(ny + 1, ch, g.surfaceSize.1, ch);
    ScaleEdgeFull(g.surfaceSize.1, ch);
  }

  /** Round trip: with a ratio of at least one and the cell's top-left pixel
      on the surface, `get(x, y)` after `put(x, y, v)` returns `v`. */
  lemma GetAfterPut<T>(g: Geometry, s: seq<T>, x: int, y: int, v: T)
    requires g.Valid() && g.Magnifies()
    requires |s| == g.surfaceSize.0 * g.surfaceSize.1
    requires TopLeftInside(g, x, y)
    ensures GetDefined(g, |s|, x, y)
    ensures Get(g, Painted(g, s, x, y, v), x, y) == v
  {
    var p := CanvasToSurface(g, x, y);
    var sw := g.surfaceSize.0;
    var k := p.0 + p.1 * sw;
    GridIndex(p.0, p.1, sw, g.surfaceSize.1);
    ScaleEdgeStep(Normalize(g.mode, x, g.canvasSize.0), sw, g.canvasSize.0);
    ScaleEdgeStep(Normalize(g.mode, y, g.canvasSize.1), g.surfaceSize.1, g.canvasSize.1);
    assert InCell(g, x, y, k);
  }

  /** A put on one cell leaves what `get` reads on any other cell alone
      (ratio at least one, both coordinates already reduced to the canvas). */
  lemma GetOtherCellUnaffected<T>(g: Geometry, s: seq<T>, x: int, y: int, x': int, y': int, v: T)
    requires g.Valid() && g.Magnifies()
    requires |s| == g.surfaceSize.0 * g.surfaceSize.1
    requires Normalize(g.mode, x, g.canvasSize.0) != Normalize(g.mode, x', g.canvasSize.0) ||
             Normalize(g.mode, y, g.canvasSize.1) != Normalize(g.mode, y', g.canvasSize.1)
    requires TopLeftInside(g, x', y')
    ensures GetDefined(g, |s|, x', y')
    ensures Get(g, Painted(g, s, x, y, v), x', y') == Get(g, s, x', y')
  {
    var p := CanvasToSurface(g, x', y');
    var sw := g.surfaceSize.0;
    var k := p.0 + p.1 * sw;
    GridIndex(p.0, p.1, sw, g.surfaceSize.1);
    var cw, ch := g.canvasSize.0, g.canvasSize.1;
    var n, n' := Normalize(g.mode, x, cw), Normalize(g.mode, x', cw);
    var m, m' := Normalize(g.mode, y, ch), Normalize(g.mode, y', ch);
    if n != n' { EdgeOutsideOtherSpan(sw, cw, n, n'); }
    if m != m' { EdgeOutsideOtherSpan(g.surfaceSize.1, ch, m, m'); }
    assert !InCell(g, x, y, k);
  }

  /** With a ratio of at least one, the first edge of one logical cell never
      falls inside the span of another. */
  lemma EdgeOutsideOtherSpan(s: nat, c: nat, n: nat, n': nat)
    requires 0 < c <= s && n != n'
    ensures !(ScaleEdge(n, s, c) <= ScaleEdge(n', s, c) < ScaleEdge(n + 1, s, c))
  {
    if n < n' { ColumnsDisjoint(s, c, n, n'); }
    if n' < n { ScaleEdgeStep(n', s, c); ScaleEdgeMono(n' + 1, n, s, c); }
  }
}
