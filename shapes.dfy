/** The logical cells the composite shapes visit, in the order they draw
    them: the row-major sweep of `Rect` and the Bresenham walk of `Line`. */
module Shapes {
  import opened Mapping

  type Cell = (int, int)

  // ---------------------------------------------------------------------
  // Rect
  // ---------------------------------------------------------------------

  /** The first `w` cells of the row starting at (x, y), left to right. */
  function RowCells(x: int, y: int, w: nat): (cells: seq<Cell>)
  {
    if w == 0 then [] else RowCells(x, y, w - 1) + [(x + w - 1, y)]
  }

  /** The cells `Rect { w, h }` drawn at (x, y) visits: `h` rows of `w`
      cells, top row first, each row left to right. */
  function RectCells(x: int, y: int, w: nat, h: nat): (cells: seq<Cell>)
  {
    if h == 0 then [] else RectCells(x, y, w, h - 1) + RowCells(x, y + h - 1, w)
  }

  lemma {:induction false} RowCellsAt(x: int, y: int, w: nat)
    ensures |RowCells(x, y, w)| == w
    ensures forall i :: 0 <= i < w ==> RowCells(x, y, w)[i] == (x + i, y)
  {
    if w > 0 {
      RowCellsAt(x, y, w - 1);
    }
  }

  /** `Rect` visits exactly w*h cells, cell number k being
      (x + k % w, y + k / w): row-major order, rows outer, columns inner.
      With w or h zero it visits nothing. */
  lemma {:induction false} RectCellsAt(x: int, y: int, w: nat, h: nat)
    ensures |RectCells(x, y, w, h)| == w * h
    ensures forall k :: 0 <= k < |RectCells(x, y, w, h)| ==> RectCells(x, y, w, h)[k] == (x + k % w, y + k / w)
  {
    if h > 0 {
      RectCellsAt(x, y, w, h - 1);
      RowCellsAt(x, y + h - 1, w);
      var prev, row := RectCells(x, y, w, h - 1), RowCells(x, y + h - 1, w);
      RowMajorSize(w, h);
      assert RectCells(x, y, w, h) == prev + row;
      forall k | 0 <= k < |prev + row|
        ensures (prev + row)[k] == (x + k % w, y + k / w)
      {
        RectCellsStep(x, y, w, h, prev, row, k);
      }
    }
  }

  /** One step of `RectCellsAt`: appending row h-1 keeps cell number k at
      (x + k % w, y + k / w). */
  lemma RectCellsStep(x: int, y: int, w: nat, h: nat, prev: seq<Cell>, row: seq<Cell>, k: nat)
    requires h > 0 && |prev| == w * (h - 1) && |row| == w
    requires forall j :: 0 <= j < |prev| ==> prev[j] == (x + j % w, y + j / w)
    requires forall j :: 0 <= j < w ==> row[j] == (x + j, y + h - 1)
    requires k < |prev| + |row|
    ensures (prev + row)[k] == (x + k % w, y + k / w)
  {
    if k >= |prev| {
      RowMajorSize(w, h);
      GridIndex(k - |prev|, h - 1, w, h);
    }
  }

  lemma RowMajorSize(w: nat, h: nat)
    requires h > 0
    ensures w * h == w * (h - 1) + w && w * (h - 1) == (h - 1) * w
  {
  }

  // ---------------------------------------------------------------------
  // Line: Bresenham's algorithm
  // ---------------------------------------------------------------------

  /** What the line walker fixes before its loop: the target cell, the
      absolute deltas (dy negated) and the step directions. */
  datatype Bresenham = Bresenham(x1: int, y1: int, dx: int, dy: int, sx: int, sy: int)

  function Setup(x0: int, y0: int, x1: int, y1: int): (b: Bresenham)
  {
    Bresenham(x1, y1, Abs(x1 - x0), -(Abs(y1 - y0) as int),
              if x0 < x1 then 1 else -1,
              if y0 < y1 then 1 else -1)
  }

  /** Coordinate `v` has not passed `target` in direction `s`. */
  predicate Heading(s: int, v: int, target: int)
  {
    (s == 1 && v <= target) || (s == -1 && target <= v)
  }

  /** The cells the loop of src/shapes.rs:82-103 draws from the state
      (x, y, error) on, including both early `break`s. */
  function Walk(b: Bresenham, x: int, y: int, error: int): (cells: seq<Cell>)
    requires b.dy <= 0 <= b.dx
    requires Heading(b.sx, x, b.x1) && Heading(b.sy, y, b.y1)
    decreases Abs(b.x1 - x) + Abs(b.y1 - y)
  {
    if x == b.x1 && y == b.y1 then [(x, y)]
    else
      var e2 := 2 * error;
      if e2 >= b.dy && x == b.x1 then [(x, y)]
      else
        var x', error' := if e2 >= b.dy then x + b.sx else x, if e2 >= b.dy then error + b.dy else error;
        if e2 <= b.dx && y == b.y1 then [(x, y)]
        else
          var y', error'' := if e2 <= b.dx then y + b.sy else y, if e2 <= b.dx then error' + b.dx else error';
          [(x, y)] + Walk(b, x', y', error'')
  }

  /** When one of the loop's three `break`s fires, the walk ends on the
      current cell. */
  lemma WalkStops(b: Bresenham, x: int, y: int, error: int)
    requires b.dy <= 0 <= b.dx
    requires Heading(b.sx, x, b.x1) && Heading(b.sy, y, b.y1)
    requires (x == b.x1 && y == b.y1) || (2 * error >= b.dy && x == b.x1) || (2 * error <= b.dx && y == b.y1)
    ensures Walk(b, x, y, error) == [(x, y)]
  {
  }

  /** When no `break` fires, the walk is the current cell followed by the
      walk from the state the loop body leaves behind, which is closer to
      the target. */
  lemma WalkContinues(b: Bresenham, x: int, y: int, error: int, x': int, y': int, error': int)
    requires b.dy <= 0 <= b.dx
    requires Heading(b.sx, x, b.x1) && Heading(b.sy, y, b.y1)
    requires !(x == b.x1 && y == b.y1)
    requires !(2 * error >= b.dy && x == b.x1) && !(2 * error <= b.dx && y == b.y1)
    requires x' == if 2 * error >= b.dy then x + b.sx else x
    requires y' == if 2 * error <= b.dx then y + b.sy else y
    requires error' == error + (if 2 * error >= b.dy then b.dy else 0) + (if 2 * error <= b.dx then b.dx else 0)
    ensures Heading(b.sx, x', b.x1) && Heading(b.sy, y', b.y1)
    ensures Abs(b.x1 - x') + Abs(b.y1 - y') < Abs(b.x1 - x) + Abs(b.y1 - y)
    ensures Walk(b, x, y, error) == [(x, y)] + Walk(b, x', y', error')
  {
  }

  /** The cells `Line { end_x: x1, end_y: y1 }` drawn at (x0, y0) visits. */
  function LineCells(x0: int, y0: int, x1: int, y1: int): (cells: seq<Cell>)
  {
    var b := Setup(x0, y0, x1, y1);
    Walk(b, x0, y0, b.dx + b.dy)
  }

  /** The walk's invariant: how far the current cell is from the target on
      each axis, and the error term that Bresenham keeps balanced. With
      Y = -dy, a = x-steps taken and b = y-steps taken, the error is
      dx*(1+b) - Y*(1+a); the slower axis never runs ahead. */
  ghost predicate OnTrack(b: Bresenham, x: int, y: int, error: int)
  {
    var rx, ry, big := Abs(b.x1 - x), Abs(b.y1 - y), -b.dy;
    b.dy <= 0 <= b.dx &&
    Heading(b.sx, x, b.x1) && Heading(b.sy, y, b.y1) &&
    rx <= b.dx && ry <= big &&
    error == b.dx - big + big * rx - b.dx * ry &&
    (b.dx >= big ==> 2 * error >= b.dy) &&
    (big >= b.dx ==> 2 * error <= b.dx)
  }

  lemma SetupOnTrack(x0: int, y0: int, x1: int, y1: int)
    ensures var b := Setup(x0, y0, x1, y1); OnTrack(b, x0, y0, b.dx + b.dy)
  {
    var b := Setup(x0, y0, x1, y1);
    var big := -b.dy;
    assert big * b.dx == b.dx * big;
  }

  lemma MulNonNeg(a: int, b: int)
    requires a >= 0 && b >= 0
    ensures a * b >= 0
  {
  }

  /** Neither early `break` of the loop can fire on track: when the x branch
      is taken the x target is not yet reached, and likewise for y. */
  lemma NoEarlyBreak(b: Bresenham, x: int, y: int, error: int)
    requires OnTrack(b, x, y, error)
    requires x != b.x1 || y != b.y1
    ensures 2 * error >= b.dy ==> x != b.x1
    ensures 2 * error <= b.dx ==> y != b.y1
  {
    var rx: int, ry: int, big: int := Abs(b.x1 - x), Abs(b.y1 - y), -b.dy;
    if rx == 0 {
      XDoneError(b.dx, big, ry, error);
    }
    if ry == 0 {
      YDoneError(b.dx, big, rx, error);
    }
  }

  /** With the x target reached but not the y target, the error term is
      below dy, so the x branch is not taken. */
  lemma XDoneError(dx: int, big: int, ry: int, error: int)
    requires 0 <= dx && 1 <= ry <= big
    requires error == dx - big + big * 0 - dx * ry
    ensures 2 * error < -big
  {
    assert dx * (ry - 1) == dx * ry - dx;
    MulNonNeg(dx, ry - 1);
  }

  /** With the y target reached but not the x target, the error term is
      above dx, so the y branch is not taken. */
  lemma YDoneError(dx: int, big: int, rx: int, error: int)
    requires 0 <= big && 1 <= rx <= dx
    requires error == dx - big + big * rx - dx * 0
    ensures 2 * error > dx
  {
    assert big * (rx - 1) == big * rx - big;
    MulNonNeg(big, rx - 1);
  }

  /** One iteration on track: the x branch is taken exactly when
      2*error >= dy, the y branch exactly when 2*error <= dx, and the
      state after it is on track again. */
  lemma StepOnTrack(b: Bresenham, x: int, y: int, error: int)
    requires OnTrack(b, x, y, error)
    requires x != b.x1 || y != b.y1
    ensures var e2 := 2 * error;
      var x' := if e2 >= b.dy then x + b.sx else x;
      var y' := if e2 <= b.dx then y + b.sy else y;
      var err := error + (if e2 >= b.dy then b.dy else 0) + (if e2 <= b.dx then b.dx else 0);
      OnTrack(b, x', y', err)
  {
    NoEarlyBreak(b, x, y, error);
    var e2 := 2 * error;
    var rx: int, ry: int, big: int := Abs(b.x1 - x), Abs(b.y1 - y), -b.dy;
    var stepX, stepY := e2 >= b.dy, e2 <= b.dx;
    var x' := if stepX then x + b.sx else x;
    var y' := if stepY then y + b.sy else y;
    var rx': int := if stepX then rx - 1 else rx;
    var ry': int := if stepY then ry - 1 else ry;
    assert Abs(b.x1 - x') == rx';
    assert Abs(b.y1 - y') == ry';
    var err := error + (if stepX then b.dy else 0) + (if stepY then b.dx else 0);
    ErrorUpdate(b.dx, big, rx, ry, error, stepX, stepY);
    assert err == b.dx - big + big * rx' - b.dx * ry';
    assert b.dx >= big ==> 2 * err >= b.dy;
    assert big >= b.dx ==> 2 * err <= b.dx;
  }

  /** How the error term follows the distances when the walker steps. */
  lemma ErrorUpdate(dx: int, big: int, rx: int, ry: int, error: int, stepX: bool, stepY: bool)
    requires error == dx - big + big * rx - dx * ry
    ensures error + (if stepX then -big else 0) + (if stepY then dx else 0) ==
      dx - big + big * (if stepX then rx - 1 else rx) - dx * (if stepY then ry - 1 else ry)
  {
    assert big * (rx - 1) == big * rx - big;
    assert dx * (ry - 1) == dx * ry - dx;
  }

  /** On track the walk is as long as the remaining distance along the
      faster axis, plus one for the cell it starts on. */
  lemma {:induction false} WalkLength(b: Bresenham, x: int, y: int, error: int)
    requires OnTrack(b, x, y, error)
    ensures b.dx >= -b.dy ==> |Walk(b, x, y, error)| == Abs(b.x1 - x) + 1
    ensures -b.dy >= b.dx ==> |Walk(b, x, y, error)| == Abs(b.y1 - y) + 1
    decreases Abs(b.x1 - x) + Abs(b.y1 - y)
  {
    if x != b.x1 || y != b.y1 {
      NoEarlyBreak(b, x, y, error);
      StepOnTrack(b, x, y, error);
      var e2 := 2 * error;
      var x' := if e2 >= b.dy then x + b.sx else x;
      var y' := if e2 <= b.dx then y + b.sy else y;
      var err := error + (if e2 >= b.dy then b.dy else 0) + (if e2 <= b.dx then b.dx else 0);
      WalkContinues(b, x, y, error, x', y', err);
      WalkLength(b, x', y', err);
    }
  }

  /** On track the walk ends exactly on the target cell. */
  lemma {:induction false} WalkEnds(b: Bresenham, x: int, y: int, error: int)
    requires OnTrack(b, x, y, error)
    ensures Walk(b, x, y, error)[|Walk(b, x, y, error)| - 1] == (b.x1, b.y1)
    decreases Abs(b.x1 - x) + Abs(b.y1 - y)
  {
    if x != b.x1 || y != b.y1 {
      NoEarlyBreak(b, x, y, error);
      StepOnTrack(b, x, y, error);
      var e2 := 2 * error;
      var x' := if e2 >= b.dy then x + b.sx else x;
      var y' := if e2 <= b.dx then y + b.sy else y;
      var err := error + (if e2 >= b.dy then b.dy else 0) + (if e2 <= b.dx then b.dx else 0);
      WalkContinues(b, x, y, error, x', y', err);
      WalkEnds(b, x', y', err);
    }
  }

  /** Two consecutive cells of a line: each coordinate stays or moves one
      step in its fixed direction, and at least one of them moves. */
  predicate KingStep(sx: int, sy: int, c: Cell, c': Cell)
  {
    (c'.0 == c.0 || c'.0 == c.0 + sx) &&
    (c'.1 == c.1 || c'.1 == c.1 + sy) &&
    c' != c
  }

  /** Distance left to the target, summed over both axes. */
  function Remaining(b: Bresenham, c: Cell): nat
  {
    Abs(b.x1 - c.0) + Abs(b.y1 - c.1)
  }

  /** Whatever the state, the walk starts at the current cell, moves one
      king step at a time in the fixed directions, and gets strictly closer
      to the target at every cell, so it never visits a cell twice. */
  lemma {:induction false} WalkSteps(b: Bresenham, x: int, y: int, error: int)
    requires b.dy <= 0 <= b.dx
    requires Heading(b.sx, x, b.x1) && Heading(b.sy, y, b.y1)
    ensures var w := Walk(b, x, y, error);
      |w| >= 1 && w[0] == (x, y) &&
      (forall i :: 0 <= i < |w| - 1 ==> KingStep(b.sx, b.sy, w[i], w[i + 1])) &&
      (forall i, j :: 0 <= i < j < |w| ==> Remaining(b, w[j]) < Remaining(b, w[i]))
    decreases Abs(b.x1 - x) + Abs(b.y1 - y)
  {
    var w := Walk(b, x, y, error);
    var e2 := 2 * error;
    if !((x == b.x1 && y == b.y1) || (e2 >= b.dy && x == b.x1) || (e2 <= b.dx && y == b.y1)) {
      var x' := if e2 >= b.dy then x + b.sx else x;
      var y' := if e2 <= b.dx then y + b.sy else y;
      var err := error + (if e2 >= b.dy then b.dy else 0) + (if e2 <= b.dx then b.dx else 0);
      WalkContinues(b, x, y, error, x', y', err);
      WalkSteps(b, x', y', err);
      ConsStep(b, (x, y), Walk(b, x', y', err));
    } else {
      WalkStops(b, x, y, error);
    }
  }

  /** A king step that gets closer to the target, put in front of a walk
      with both properties, gives a walk with both properties. */
  lemma ConsStep(b: Bresenham, c: Cell, rest: seq<Cell>)
    requires |rest| >= 1 && KingStep(b.sx, b.sy, c, rest[0]) && Remaining(b, rest[0]) < Remaining(b, c)
    requires forall i :: 0 <= i < |rest| - 1 ==> KingStep(b.sx, b.sy, rest[i], rest[i + 1])
    requires forall i, j :: 0 <= i < j < |rest| ==> Remaining(b, rest[j]) < Remaining(b, rest[i])
    ensures var w := [c] + rest;
      (forall i :: 0 <= i < |w| - 1 ==> KingStep(b.sx, b.sy, w[i], w[i + 1])) &&
      (forall i, j :: 0 <= i < j < |w| ==> Remaining(b, w[j]) < Remaining(b, w[i]))
  {
    var w := [c] + rest;
    forall i, j | 0 <= i < j < |w|
      ensures Remaining(b, w[j]) < Remaining(b, w[i])
    {
      if i == 0 && j > 1 {
        assert Remaining(b, rest[j - 1]) < Remaining(b, rest[0]);
      }
    }
  }

  /** The walk from `(x0, y0)` to `(x1, y1)`: it starts at the start point,
      ends at the end point, visits max(|x1-x0|, |y1-y0|) + 1 cells, moves
      by king steps in fixed directions and never revisits a cell. */
  lemma LineCellsShape(x0: int, y0: int, x1: int, y1: int)
    ensures var w := LineCells(x0, y0, x1, y1);
      |w| == Max(Abs(x1 - x0), Abs(y1 - y0)) + 1 &&
      w[0] == (x0, y0) &&
      w[|w| - 1] == (x1, y1) &&
      (forall i :: 0 <= i < |w| - 1 ==> KingStep(Setup(x0, y0, x1, y1).sx, Setup(x0, y0, x1, y1).sy, w[i], w[i + 1])) &&
      (forall i, j :: 0 <= i < j < |w| ==> w[i] != w[j])
  {
    var b := Setup(x0, y0, x1, y1);
    SetupOnTrack(x0, y0, x1, y1);
    WalkLength(b, x0, y0, b.dx + b.dy);
    WalkEnds(b, x0, y0, b.dx + b.dy);
    WalkSteps(b, x0, y0, b.dx + b.dy);
  }

  /** The walk from (0, 0) to (3, 3) is the diagonal. */
  lemma DiagonalLine()
    ensures LineCells(0, 0, 3, 3) == [(0, 0), (1, 1), (2, 2), (3, 3)]
  {
    var b := Setup(0, 0, 3, 3);
    assert Walk(b, 3, 3, 0) == [(3, 3)];
    assert Walk(b, 2, 2, 0) == [(2, 2), (3, 3)];
    assert Walk(b, 1, 1, 0) == [(1, 1), (2, 2), (3, 3)];
  }
}
