// The game state record of the canvas as a value, the invariant the game
// keeps, and one `tick` as a relation between the state before and after
// (a relation because a new food cell is drawn at random). The class in
// game_canvas.dfy is proved to step along this relation.
module Simulation {
  import opened GameTypes
  import opened Grid

  /** The fields of the state record, plus the log of `onGameOver` calls. */
  datatype Snapshot = Snapshot(
    cols: int,
    rows: int,
    snake: seq<Point>,       // tail first, head last
    dir: Direction,
    nextDir: Option<Direction>,
    paused: bool,
    alive: bool,
    food: Point,
    score: int,
    gameOvers: seq<int>)     // the scores passed to onGameOver, oldest first

  /** What the game maintains from creation on. */
  predicate Inv(s: Snapshot)
  {
    && 0 <= s.cols && 0 <= s.rows
    && |s.snake| >= 2
    && 0 <= s.score
    && (s.nextDir.Some? ==> !IsReversal(s.dir, s.nextDir.value))
    && (if s.alive then s.gameOvers == [] else s.gameOvers == [s.score])
  }

  function Last(snake: seq<Point>): Point
    requires snake != []
  {
    snake[|snake| - 1]
  }

  /** The heading the next tick moves in: the pending one if any, else the current one. */
  function Heading(s: Snapshot): Direction
  {
    if s.nextDir.Some? then s.nextDir.value else s.dir
  }

  function NextHead(s: Snapshot): Point
    requires s.snake != []
  {
    Step(Last(s.snake), Heading(s))
  }

  /** The cells the new head must avoid: the whole body when growing, the body without its tail otherwise. */
  function CollisionBody(s: Snapshot): seq<Point>
    requires s.snake != []
  {
    if NextHead(s) == s.food then s.snake else s.snake[1..]
  }

  /** The next tick moves the head onto the food and the snake grows. */
  predicate Eats(s: Snapshot)
  {
    && s.snake != []
    && s.alive && !s.paused
    && InGrid(NextHead(s), s.cols, s.rows)
    && NextHead(s) !in CollisionBody(s)
    && NextHead(s) == s.food
  }

  /** What `tick` needs to finish: if it eats, `placeFood` must find a free cell. */
  ghost predicate FoodRoom(s: Snapshot)
  {
    Eats(s) ==> HasFreeCell(s.cols, s.rows, s.snake + [NextHead(s)])
  }

  /** One tick: from `s` the game may go to `t`. */
  ghost predicate TickStep(s: Snapshot, t: Snapshot)
  {
    && s.snake != []
    && if !s.alive || s.paused then t == s
       else
         var head := NextHead(s);
         var turned := s.(dir := Heading(s), nextDir := None);
         if !InGrid(head, s.cols, s.rows) || head in CollisionBody(s) then
           t == turned.(alive := false, gameOvers := s.gameOvers + [s.score])
         else if head == s.food then
           && t == turned.(snake := s.snake + [head], score := s.score + 1, food := t.food)
           && InGrid(t.food, s.cols, s.rows)
           && t.food !in t.snake
         else
           t == turned.(snake := s.snake[1..] + [head])
  }

  /** `n` ticks in a row lead from `s` to `t`. */
  ghost predicate Ticks(s: Snapshot, t: Snapshot, n: nat)
    decreases n
  {
    if n == 0 then t == s
    else exists m :: Ticks(s, m, n - 1) && TickStep(m, t)
  }

  // ---------------------------------------------------------------------
  // One tick
  // ---------------------------------------------------------------------

  /** A stopped or paused game does not change. */
  lemma TickFrozen(s: Snapshot, t: Snapshot)
    requires TickStep(s, t)
    requires !s.alive || s.paused
    ensures t == s
  {
  }

  /** A running game adopts the pending heading and clears it before moving. */
  lemma TickAdoptsPending(s: Snapshot, t: Snapshot)
    requires TickStep(s, t)
    requires s.alive && !s.paused
    ensures t.nextDir == None
    ensures s.nextDir.Some? ==> t.dir == s.nextDir.value
    ensures s.nextDir.None? ==> t.dir == s.dir
  {
  }

  /** A head leaving the grid ends the game, reports the score, and keeps snake, food and score. */
  lemma TickOffGrid(s: Snapshot, t: Snapshot)
    requires TickStep(s, t)
    requires s.alive && !s.paused
    requires !InGrid(NextHead(s), s.cols, s.rows)
    ensures !t.alive
    ensures t.gameOvers == s.gameOvers + [s.score]
    ensures t.snake == s.snake && t.food == s.food && t.score == s.score
  {
  }

  /** Running into the body ends the game the same way; the tail cell only counts when the snake grows. */
  lemma TickSelfCollision(s: Snapshot, t: Snapshot)
    requires TickStep(s, t)
    requires s.alive && !s.paused
    requires InGrid(NextHead(s), s.cols, s.rows)
    ensures NextHead(s) == s.food ==>
              (!t.alive <==> NextHead(s) in s.snake)
    ensures NextHead(s) != s.food ==>
              (!t.alive <==> exists i :: 1 <= i < |s.snake| && s.snake[i] == NextHead(s))
    ensures !t.alive ==>
              t.gameOvers == s.gameOvers + [s.score] && t.snake == s.snake && t.score == s.score
  {
  }

  /** An ordinary move: same length, the new head last, the old tail gone, score and food unchanged. */
  lemma TickMoves(s: Snapshot, t: Snapshot)
    requires TickStep(s, t)
    requires s.alive && !s.paused && t.alive
    requires NextHead(s) != s.food
    ensures |t.snake| == |s.snake|
    ensures Last(t.snake) == NextHead(s)
    ensures t.snake[..|t.snake| - 1] == s.snake[1..]
    ensures t.score == s.score && t.food == s.food
  {
  }

  /** Eating: one cell longer, one point more, and a new food cell inside the grid and off the snake. */
  lemma TickGrows(s: Snapshot, t: Snapshot)
    requires TickStep(s, t)
    requires s.alive && !s.paused && t.alive
    requires NextHead(s) == s.food
    ensures |t.snake| == |s.snake| + 1
    ensures t.snake[..|s.snake|] == s.snake && Last(t.snake) == NextHead(s)
    ensures t.score == s.score + 1
    ensures InGrid(t.food, t.cols, t.rows) && t.food !in t.snake
  {
  }

  /** A tick keeps the game invariant. */
  lemma TickKeepsInv(s: Snapshot, t: Snapshot)
    requires Inv(s) && TickStep(s, t)
    ensures Inv(t)
  {
  }

  /** The snake never turns back on itself: the heading after a tick is never the reverse of the one before. */
  lemma TickNeverReverses(s: Snapshot, t: Snapshot)
    requires Inv(s) && TickStep(s, t)
    ensures !IsReversal(s.dir, t.dir)
  {
  }

  /** `onGameOver` is called exactly at the tick where the game stops, with the score of that moment. */
  lemma TickReportsOnce(s: Snapshot, t: Snapshot)
    requires TickStep(s, t)
    ensures !s.alive ==> !t.alive
    ensures s.alive && !t.alive ==> t.gameOvers == s.gameOvers + [s.score]
    ensures s.alive == t.alive ==> t.gameOvers == s.gameOvers
  {
  }

  /** A tick never touches the grid, grows the snake by at most one cell, and the growth is the score gained. */
  lemma TickAccounting(s: Snapshot, t: Snapshot)
    requires TickStep(s, t)
    ensures t.cols == s.cols && t.rows == s.rows
    ensures |t.snake| - |s.snake| == t.score - s.score
    ensures s.score <= t.score <= s.score + 1
  {
  }

  /** Board soundness is kept by a tick: a snake inside the grid without repeated cells, with the food
      inside the grid and off the snake, stays so. */
  predicate SoundBoard(s: Snapshot)
  {
    && (forall i :: 0 <= i < |s.snake| ==> InGrid(s.snake[i], s.cols, s.rows))
    && (forall i, j :: 0 <= i < j < |s.snake| ==> s.snake[i] != s.snake[j])
    && InGrid(s.food, s.cols, s.rows)
    && s.food !in s.snake
  }

  lemma TickKeepsSoundBoard(s: Snapshot, t: Snapshot)
    requires TickStep(s, t) && SoundBoard(s)
    ensures SoundBoard(t)
  {
  }

  // ---------------------------------------------------------------------
  // Several ticks
  // ---------------------------------------------------------------------

  /** Over any number of ticks the invariant holds, so `onGameOver` is called at most once, with the final
      score; the snake grows by exactly the points scored, at most one per tick; and a stopped game stays put. */
  lemma {:induction false} TicksAccounting(s: Snapshot, t: Snapshot, n: nat)
    requires Inv(s) && Ticks(s, t, n)
    ensures Inv(t)
    ensures |t.gameOvers| <= 1
    ensures t.cols == s.cols && t.rows == s.rows
    ensures |t.snake| - |s.snake| == t.score - s.score
    ensures s.score <= t.score <= s.score + n
    ensures !s.alive ==> t == s
    decreases n
  {
    if n > 0 {
      var m :| Ticks(s, m, n - 1) && TickStep(m, t);
      TicksAccounting(s, m, n - 1);
      TickKeepsInv(m, t);
      TickAccounting(m, t);
    }
  }
}
