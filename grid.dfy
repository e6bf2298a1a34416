// Grid geometry of the game canvas: the bounds test, `clamp`, the
// cols/rows computation from the viewport, the reconciliation of the snake
// with a new grid, and when a free cell for the food is guaranteed.
module Grid {
  import opened GameTypes

  /** Pixel size of one grid cell. */
  const BaseTile: int := 16
  /** Smallest CSS size the canvas is given, in pixels. */
  const MinCss: int := 100
  /** Smallest number of columns or rows after a resize. */
  const MinCells: int := 6

  function Max(a: int, b: int): int { if a < b then b else a }
  function Min(a: int, b: int): int { if a < b then a else b }

  /** The bounds test of `tick`: 0 <= x < cols and 0 <= y < rows. */
  predicate InGrid(p: Point, cols: int, rows: int)
  {
    !(p.x < 0 || p.x >= cols || p.y < 0 || p.y >= rows)
  }

  /** `clamp(v, a, b)` = max(a, min(b, v)). */
  function Clamp(v: int, lo: int, hi: int): (r: int)
    ensures lo <= hi ==> lo <= r <= hi
    ensures lo <= v <= hi ==> r == v
    ensures lo <= hi && v < lo ==> r == lo
    ensures lo <= hi && hi < v ==> r == hi
    ensures hi < lo ==> r == lo
  {
    Max(lo, Min(hi, v))
  }

  /** The fallback clamp of the resize handler: min(max(0, v), hi). */
  function ClampLow(v: int, hi: int): (r: int)
    ensures 0 <= hi ==> 0 <= r <= hi
    ensures 0 <= v <= hi ==> r == v
  {
    Min(Max(0, v), hi)
  }

  /** Both clamp spellings agree on every non-empty range. */
  lemma ClampFormsAgree(v: int, hi: int)
    requires 0 <= hi
    ensures ClampLow(v, hi) == Clamp(v, 0, hi)
  {
  }

  /** Number of cells along one axis for a viewport extent of `viewport` pixels. */
  function GridDim(viewport: int): (r: int)
    ensures r >= MinCells
    ensures r * BaseTile <= Max(MinCss, viewport) < (r + 1) * BaseTile
  {
    Max(MinCells, Max(MinCss, viewport) / BaseTile)
  }

  function Translate(p: Point, dx: int, dy: int): Point
  {
    Point(p.x + dx, p.y + dy)
  }

  /** True when the resize handler recentres: the old size is known (non-zero) and one dimension shrank. */
  predicate Recentres(oldCols: int, oldRows: int, cols: int, rows: int)
  {
    oldCols != 0 && oldRows != 0 && (cols < oldCols || rows < oldRows)
  }

  /** The recentring offset along one axis: floor((new - old) / 2). */
  function HalfChange(oldDim: int, newDim: int): (r: int)
    ensures 2 * r <= newDim - oldDim < 2 * r + 2
  {
    (newDim - oldDim) / 2
  }

  /** Every point moved by (dx, dy) and then clamped into the grid. */
  function ShiftClamp(snake: seq<Point>, dx: int, dy: int, cols: int, rows: int): (r: seq<Point>)
    requires 1 <= cols && 1 <= rows
    ensures |r| == |snake|
    ensures forall i :: 0 <= i < |r| ==> InGrid(r[i], cols, rows)
    ensures forall i :: 0 <= i < |r| && InGrid(Translate(snake[i], dx, dy), cols, rows) ==>
              r[i] == Translate(snake[i], dx, dy)
    ensures forall i :: 0 <= i < |r| ==>
              r[i] == Point(Clamp(snake[i].x + dx, 0, cols - 1), Clamp(snake[i].y + dy, 0, rows - 1))
  {
    seq(|snake|, i requires 0 <= i < |snake| =>
      Point(Clamp(snake[i].x + dx, 0, cols - 1), Clamp(snake[i].y + dy, 0, rows - 1)))
  }

  /** Every point clamped into the grid, without moving it first. */
  function ClampAll(snake: seq<Point>, cols: int, rows: int): (r: seq<Point>)
    requires 1 <= cols && 1 <= rows
    ensures |r| == |snake|
    ensures forall i :: 0 <= i < |r| ==> InGrid(r[i], cols, rows)
    ensures forall i :: 0 <= i < |r| && InGrid(snake[i], cols, rows) ==> r[i] == snake[i]
    ensures forall i :: 0 <= i < |r| ==>
              r[i] == Point(Clamp(snake[i].x, 0, cols - 1), Clamp(snake[i].y, 0, rows - 1))
  {
    seq(|snake|, i requires 0 <= i < |snake| =>
      ClampFormsAgree(snake[i].x, cols - 1);
      ClampFormsAgree(snake[i].y, rows - 1);
      Point(ClampLow(snake[i].x, cols - 1), ClampLow(snake[i].y, rows - 1)))
  }

  /** The snake after the grid changes from oldCols x oldRows to cols x rows. */
  function Reconcile(snake: seq<Point>, oldCols: int, oldRows: int, cols: int, rows: int): (r: seq<Point>)
    requires 1 <= cols && 1 <= rows
    ensures |r| == |snake|
    ensures forall i :: 0 <= i < |r| ==> InGrid(r[i], cols, rows)
    ensures Recentres(oldCols, oldRows, cols, rows) ==> forall i :: 0 <= i < |r| ==>
              r[i] == Point(Clamp(snake[i].x + HalfChange(oldCols, cols), 0, cols - 1),
                            Clamp(snake[i].y + HalfChange(oldRows, rows), 0, rows - 1))
    ensures !Recentres(oldCols, oldRows, cols, rows) ==> forall i :: 0 <= i < |r| ==>
              r[i] == Point(Clamp(snake[i].x, 0, cols - 1), Clamp(snake[i].y, 0, rows - 1))
  {
    if Recentres(oldCols, oldRows, cols, rows) then
      ShiftClamp(snake, HalfChange(oldCols, cols), HalfChange(oldRows, rows), cols, rows)
    else
      ClampAll(snake, cols, rows)
  }

  /** A growing or unchanged grid never moves a snake that already fits in it. */
  lemma ReconcileKeepsFittingSnake(snake: seq<Point>, oldCols: int, oldRows: int, cols: int, rows: int)
    requires 1 <= cols && 1 <= rows
    requires !Recentres(oldCols, oldRows, cols, rows)
    requires forall i :: 0 <= i < |snake| ==> InGrid(snake[i], cols, rows)
    ensures Reconcile(snake, oldCols, oldRows, cols, rows) == snake
  {
  }

  /** On a shrink every cell that the recentring shift keeps inside the grid is moved by exactly that shift. */
  lemma ReconcileShiftsCells(snake: seq<Point>, oldCols: int, oldRows: int, cols: int, rows: int, i: int)
    requires 1 <= cols && 1 <= rows
    requires Recentres(oldCols, oldRows, cols, rows)
    requires 0 <= i < |snake|
    requires InGrid(Translate(snake[i], HalfChange(oldCols, cols), HalfChange(oldRows, rows)), cols, rows)
    ensures Reconcile(snake, oldCols, oldRows, cols, rows)[i]
            == Translate(snake[i], HalfChange(oldCols, cols), HalfChange(oldRows, rows))
  {
  }

  /** Clamping can map two cells of the snake onto one: the shrink from 20 x 20 to 6 x 20 moves
      (18,0) and (19,0) left by 7 to (11,0) and (12,0), and both clamp to (5,0). */
  lemma ReconcileCanMergeCells()
    ensures Reconcile([Point(18, 0), Point(19, 0)], 20, 20, 6, 20) == [Point(5, 0), Point(5, 0)]
  {
  }

  // ---------------------------------------------------------------------
  // Free cells for the food
  // ---------------------------------------------------------------------

  /** Some cell of the cols x rows grid is not occupied by `body`; `placeFood` loops until it draws one. */
  ghost predicate HasFreeCell(cols: int, rows: int, body: seq<Point>)
  {
    exists fx, fy :: 0 <= fx < cols && 0 <= fy < rows && Point(fx, fy) !in body
  }

  ghost function RowCells(cols: nat, y: int): set<Point>
  {
    set x | 0 <= x < cols :: Point(x, y)
  }

  ghost function GridCells(cols: nat, rows: nat): set<Point>
  {
    set x, y | 0 <= x < cols && 0 <= y < rows :: Point(x, y)
  }

  lemma {:induction false} RowSize(cols: nat, y: int)
    ensures |RowCells(cols, y)| == cols
  {
    if cols == 0 {
      assert RowCells(cols, y) == {};
    } else {
      RowSize(cols - 1, y);
      assert RowCells(cols, y) == RowCells(cols - 1, y) + {Point(cols - 1, y)};
    }
  }

  /** The grid has exactly cols * rows cells. */
  lemma {:induction false} GridSize(cols: nat, rows: nat)
    ensures |GridCells(cols, rows)| == cols * rows
  {
    if rows == 0 {
      assert GridCells(cols, rows) == {};
    } else {
      GridSize(cols, rows - 1);
      RowSize(cols, rows - 1);
      assert GridCells(cols, rows) == GridCells(cols, rows - 1) + RowCells(cols, rows - 1);
      assert GridCells(cols, rows - 1) !! RowCells(cols, rows - 1);
      assert cols * rows == cols * (rows - 1) + cols;
    }
  }

  /** A sequence has at most as many distinct elements as it has elements. */
  lemma {:induction false} DistinctCount<T>(s: seq<T>)
    ensures |set p | p in s| <= |s|
  {
    if s != [] {
      DistinctCount(s[1..]);
      assert (set p | p in s) == (set p | p in s[1..]) + {s[0]};
    } else {
      assert (set p | p in s) == {};
    }
  }

  lemma SubsetSize<T>(a: set<T>, b: set<T>)
    requires a <= b
    ensures |a| <= |b|
  {
    assert b == a + (b - a);
  }

  /** Pigeonhole: a body shorter than the number of cells leaves a cell free for the food. */
  lemma RoomForFood(cols: int, rows: int, body: seq<Point>)
    requires 0 <= cols && 0 <= rows
    requires |body| < cols * rows
    ensures HasFreeCell(cols, rows, body)
  {
    if !HasFreeCell(cols, rows, body) {
      forall p | p in GridCells(cols, rows)
        ensures p in (set q | q in body)
      {
        assert 0 <= p.x < cols && 0 <= p.y < rows;
        assert Point(p.x, p.y) in body;
      }
      SubsetSize(GridCells(cols, rows), set q | q in body);
      GridSize(cols, rows);
      DistinctCount(body);
      assert false;
    }
  }
}
