// The canvas game as the source runs it: one object whose fields are the
// state record, updated in place by the input handlers, `tick`, `placeFood`
// and the resize handler; and the render loop that drains a fixed-step
// time accumulator.
module GameCanvas {
  import opened GameTypes
  import opened Grid
  import opened Simulation

  class Game {
    var cols: int
    var rows: int
    var snake: seq<Point>
    var dir: Direction
    var nextDir: Option<Direction>
    var paused: bool
    var alive: bool
    var food: Point
    var score: int
    /** The scores passed to `onGameOver`, oldest first. */
    ghost var gameOvers: seq<int>

    ghost function Snap(): Snapshot
      reads this
    {
      Snapshot(cols, rows, snake, dir, nextDir, paused, alive, food, score, gameOvers)
    }

    ghost predicate Valid()
      reads this
    {
      Inv(Snap())
    }

    /** The initial record: grid from the viewport in 16-pixel tiles, a two-cell snake heading right,
        food at the fixed cell (10,10). */
    constructor (viewportW: nat, viewportH: nat)
      ensures Valid()
      ensures cols == viewportW / BaseTile && rows == viewportH / BaseTile
      ensures snake == [Point(5, 5), Point(6, 5)] && dir == Right && nextDir == None
      ensures !paused && alive && food == Point(10, 10) && score == 0 && gameOvers == []
    {
      cols := viewportW / BaseTile;
      rows := viewportH / BaseTile;
      snake := [Point(5, 5), Point(6, 5)];
      dir := Right;
      nextDir := None;
      paused := false;
      alive := true;
      food := Point(10, 10);
      score := 0;
      gameOvers := [];
    }

    /** A direction intent from the keyboard or the direction event: a reversal of the current heading is
        dropped, anything else replaces the pending heading. */
    method RequestDirection(d: Direction)
      requires Valid()
      modifies this`nextDir
      ensures Valid()
      ensures IsReversal(dir, d) ==> nextDir == old(nextDir)
      ensures !IsReversal(dir, d) ==> nextDir == Some(d)
    {
      if (dir == Up && d == Down) || (dir == Down && d == Up) ||
         (dir == Left && d == Right) || (dir == Right && d == Left) {
        return;
      }
      nextDir := Some(d);
    }

    /** Draws a cell inside the grid that the snake does not occupy. */
    method PlaceFood()
      requires HasFreeCell(cols, rows, snake)
      modifies this`food
      ensures InGrid(food, cols, rows) && food !in snake
    {
      var fx, fy :| 0 <= fx < cols && 0 <= fy < rows && Point(fx, fy) !in snake;
      food := Point(fx, fy);
    }

    /** One simulation step. */
    method Tick()
      requires Valid()
      requires FoodRoom(Snap())
      modifies this
      ensures Valid()
      ensures TickStep(old(Snap()), Snap())
    {
      ghost var s := Snap();
      if !alive || paused {
        return;
      }
      if nextDir.Some? {
        dir := nextDir.value;
        nextDir := None;
      }
      var head := Step(snake[|snake| - 1], dir);
      assert head == NextHead(s);
      var willGrow := head == food;
      if head.x < 0 || head.x >= cols || head.y < 0 || head.y >= rows {
        alive := false;
        gameOvers := gameOvers + [score];
        return;
      }
      var bodyToCheck := if willGrow then snake else snake[1..];
      if head in bodyToCheck {
        alive := false;
        gameOvers := gameOvers + [score];
        return;
      }
      snake := snake + [head];
      if willGrow {
        score := score + 1;
        PlaceFood();
      } else {
        snake := snake[1..];
        assert snake == s.snake[1..] + [head];
      }
    }

    /** The grid part of the resize handler for a viewport of viewportW x viewportH pixels. */
    method Resize(viewportW: int, viewportH: int)
      requires Valid()
      requires var c, r := GridDim(viewportW), GridDim(viewportH);
               food.x >= c || food.y >= r ==> HasFreeCell(c, r, Reconcile(snake, cols, rows, c, r))
      modifies this
      ensures Valid()
      ensures cols == GridDim(viewportW) && rows == GridDim(viewportH)
      ensures snake == Reconcile(old(snake), old(cols), old(rows), cols, rows)
      ensures (old(food).x >= cols || old(food).y >= rows) ==> InGrid(food, cols, rows) && food !in snake
      ensures !(old(food).x >= cols || old(food).y >= rows) ==> food == old(food)
      ensures food != old(food) <==> (old(food).x >= cols || old(food).y >= rows)
      ensures dir == old(dir) && nextDir == old(nextDir) && paused == old(paused)
      ensures alive == old(alive) && score == old(score) && gameOvers == old(gameOvers)
    {
      var cssW := Max(MinCss, viewportW);
      var cssH := Max(MinCss, viewportH);
      var newCols := Max(MinCells, cssW / BaseTile);
      var newRows := Max(MinCells, cssH / BaseTile);
      var oldCols, oldRows := cols, rows;
      cols := newCols;
      rows := newRows;
      ReconcileSnake(oldCols, oldRows);
      ReplaceFoodOutside();
    }

    /** The snake part of the resize handler: on a shrink from a known size the snake is moved by half
        the change and clamped, otherwise it is only clamped. Both branches then run the same food check,
        ReplaceFoodOutside. */
    method ReconcileSnake(oldCols: int, oldRows: int)
      requires 1 <= cols && 1 <= rows
      modifies this`snake
      ensures snake == Reconcile(old(snake), oldCols, oldRows, cols, rows)
    {
      if oldCols != 0 && oldRows != 0 && (cols < oldCols || rows < oldRows) {
        var dx := (cols - oldCols) / 2;
        var dy := (rows - oldRows) / 2;
        snake := ShiftClamp(snake, dx, dy, cols, rows);
      } else {
        snake := ClampAll(snake, cols, rows);
      }
    }

    /** `if (s.food.x >= cols || s.food.y >= rows) placeFood()`: food beyond the right or bottom edge is
        drawn again; food anywhere else, even under the snake, stays. */
    method ReplaceFoodOutside()
      requires food.x >= cols || food.y >= rows ==> HasFreeCell(cols, rows, snake)
      modifies this`food
      ensures (old(food).x >= cols || old(food).y >= rows) ==> InGrid(food, cols, rows) && food !in snake
      ensures !(old(food).x >= cols || old(food).y >= rows) ==> food == old(food)
    {
      if food.x >= cols || food.y >= rows {
        PlaceFood();
      }
    }
  }

  /** The tick interval `1000 / ticksPerSecond` ms at 6 ticks per second. Simulation time is counted
      in units of 1/6 ms, so that the interval of 1000/6 ms is a whole number of units. */
  const Interval: int := 1000

  /** How many whole intervals an accumulated time holds. */
  function DueTicks(acc: int): (n: nat)
    ensures acc >= 0 ==> n * Interval <= acc < (n + 1) * Interval
    ensures acc < Interval ==> n == 0
  {
    if acc < 0 then 0 else acc / Interval
  }

  /** The render callback's time keeping: the time of the previous frame and the accumulated time. */
  class FrameLoop {
    const game: Game
    var last: int
    var acc: int

    ghost predicate Valid()
      reads this, game
    {
      game.Valid() && acc < Interval
    }

    constructor (game: Game, now: int)
      requires game.Valid()
      ensures Valid() && this.game == game && last == now && acc == 0
    {
      this.game := game;
      last := now;
      acc := 0;
    }

    /** One frame at time `now`: a stopped game is left as it is; otherwise the elapsed time is added
        to the accumulator and one tick runs per whole interval in it. `ticks` counts the calls to `tick`. */
    method Render(now: int) returns (ghost ticks: nat)
      requires Valid()
      requires game.alive ==> |game.snake| + DueTicks(acc + (now - last)) < game.cols * game.rows
      modifies this, game
      ensures Valid()
      ensures !old(game.alive) ==>
                ticks == 0 && acc == old(acc) && last == old(last) && game.Snap() == old(game.Snap())
      ensures old(game.alive) ==> last == now && ticks == DueTicks(old(acc) + (now - old(last)))
      ensures old(game.alive) ==> acc == old(acc) + (now - old(last)) - ticks * Interval
      ensures old(game.alive) && old(acc) + (now - old(last)) >= 0 ==> 0 <= acc
      ensures Ticks(old(game.Snap()), game.Snap(), ticks)
    {
      ghost var start := game.Snap();
      ticks := 0;
      if !game.alive {
        return;
      }
      var dt := now - last;
      last := now;
      acc := acc + dt;
      ghost var total := acc;
      while acc >= Interval
        invariant game.Valid() && last == now
        invariant acc == total - ticks * Interval
        invariant ticks + DueTicks(acc) == DueTicks(total)
        invariant Ticks(start, game.Snap(), ticks)
        invariant game.alive ==> |game.snake| + DueTicks(acc) < game.cols * game.rows
        decreases acc
      {
        ghost var before := game.Snap();
        if game.alive {
          RoomForFood(game.cols, game.rows, game.snake + [NextHead(before)]);
        }
        game.Tick();
        TickAccounting(before, game.Snap());
        TickReportsOnce(before, game.Snap());
        assert Ticks(start, before, ticks) && TickStep(before, game.Snap());
        ticks := ticks + 1;
        acc := acc - Interval;
      }
    }
  }
}
