# Snake game core in Dafny

A model of the simulation core of a browser snake game, with proofs about it:

- **the game canvas.** It holds one mutable record of the grid size, the snake, the heading, a pending heading, the paused and alive flags, the food cell and the score. Keyboard and touch intents set the pending heading, but a reversal of the current heading is dropped. `tick` adopts the pending heading and moves the head one cell. A head off the grid, or on the body, ends the game and calls `onGameOver` with the score. A head on the food grows the snake, adds a point and places new food on a random free cell. Any other move shifts the snake forward. A resize recomputes the grid from the viewport in 16-pixel tiles, with at least 6 cells per axis. It recentres the snake when a dimension shrank, clamps the snake into the grid, and re-places food that lies beyond the new right or bottom edge. Every animation frame adds the elapsed time to an accumulator and runs one tick per whole tick interval (1/6 s) in it.
- **the high-score list.** `saveScore` reads the stored list, appends the new entry, sorts by score (highest first, stable) and stores the first 50. `readScores` yields the empty list when nothing readable is stored. `clearScores` removes the list.
- **swipe detection.** At the end of a touch, a move of at least 30 pixels along some axis emits a direction along the dominant axis. A tie goes to the vertical axis.

Files:

- `game_types.dfy` (module `GameTypes`): points, headings, the reversal test and the unit step.
- `grid.dfy` (module `Grid`): the bounds test, `clamp`, the grid size from the viewport, and the reconciliation of the snake with a new grid. It also proves by pigeonhole when a free food cell exists.
- `simulation.dfy` (module `Simulation`): the state record as a value (`Snapshot`), the invariant `Inv`, one tick as the relation `TickStep`, and `Ticks` for several ticks in a row. Lemmas state what a tick does.
- `game_canvas.dfy` (module `GameCanvas`): class `Game` has the record's fields. Its methods update them in place and are proved to follow `TickStep`. Class `FrameLoop` holds the accumulator of the render callback.
- `scores.dfy` (module `Scores`): the sort, the ranking `saveScore` stores, and class `ScoreStore` over an abstract storage slot.
- `touch_controls.dfy` (module `TouchControls`): `Swipe` and class `TouchTracker`, which holds the recorded touch start.

Behaviour of the code that the model keeps:

- Once the game is over, the render callback returns before it touches the accumulator, and it schedules no further frames.
- After a resize, food is re-placed only when `food.x >= cols || food.y >= rows`, not on every out-of-grid test. Food is not checked against the moved snake, so it may end up under the snake.
- Clamping may put two snake cells on one grid cell (`Grid.ReconcileCanMergeCells`). So "no two snake cells are equal" is not an invariant of the model. It is proved only to survive a tick (`Simulation.TickKeepsSoundBoard`).
- The initial record takes its grid size from the viewport with no minimum of 6. The minimum only applies once the first resize has run.
- Food placement retries without a bound. The model requires a free cell instead of capping the retries.
- Recentring happens only when the old size is non-zero and some dimension shrank.

## Model

| member | source | states |
|---|---|---|
| `GameTypes.Opposite` | src/components/GameCanvas/GameCanvas.tsx:54-55 | The reverse of a heading is a different heading whose unit move is the negated unit move. |
| `GameTypes.IsReversal` | src/components/GameCanvas/GameCanvas.tsx:71-72 | The four-case reversal test used by both input handlers holds exactly when the wanted heading is the opposite of the current one. |
| `GameTypes.ReversalSymmetric` | src/components/GameCanvas/GameCanvas.tsx:54-55 | Reversal is symmetric. |
| `GameTypes.Step` | src/components/GameCanvas/GameCanvas.tsx:162-166 | The new head differs from the old head by exactly the unit move of the heading (up is y-1, down is y+1, left is x-1, right is x+1). |
| `GameTypes.StepBack` | src/components/GameCanvas/GameCanvas.tsx:163-166 | A step in the opposite heading undoes a step. |
| `Grid.Clamp` | src/components/GameCanvas/GameCanvas.tsx:32 | `clamp(v, a, b)` lies in [a, b] when a <= b. It keeps v when v is inside, gives a below the range and b above it, and gives a when the range is empty. |
| `Grid.ClampLow` | src/components/GameCanvas/GameCanvas.tsx:131-132 | The fallback clamp lies in [0, hi] and keeps values already inside. |
| `Grid.ClampFormsAgree` | src/components/GameCanvas/GameCanvas.tsx:124-132 | The two clamp spellings of the resize handler agree on every non-empty range. |
| `Grid.GridDim` | src/components/GameCanvas/GameCanvas.tsx:99-103 | The cell count is at least 6 and is the number of whole 16-pixel tiles in max(100, viewport). |
| `Grid.HalfChange` | src/components/GameCanvas/GameCanvas.tsx:121-122 | The recentring offset is floor((new - old) / 2), also for negative differences. |
| `Grid.ShiftClamp` | src/components/GameCanvas/GameCanvas.tsx:123-126 | Same length. Every cell ends inside the grid. A cell that the shift keeps inside is moved by exactly the shift. Each coordinate of a shifted cell is clamped on its own to the nearest edge. |
| `Grid.ClampAll` | src/components/GameCanvas/GameCanvas.tsx:130-133 | Same length. Every cell ends inside the grid. Cells already inside stay put. Each coordinate of a cell outside is clamped on its own to [0, cols-1] or [0, rows-1], the same as `clamp(v, 0, n-1)`. |
| `Grid.Reconcile` | src/components/GameCanvas/GameCanvas.tsx:119-133 | The snake after a grid change keeps its length and lies within [0, cols-1] x [0, rows-1]. On a shrink from a known size, each cell is moved by (floor(dCols/2), floor(dRows/2)) and then clamped per coordinate. Otherwise each cell is clamped per coordinate where it is. |
| `Grid.ReconcileKeepsFittingSnake` | src/components/GameCanvas/GameCanvas.tsx:128-133 | Without recentring, a snake that fits the new grid is left unchanged. |
| `Grid.ReconcileShiftsCells` | src/components/GameCanvas/GameCanvas.tsx:120-126 | On a shrink, each cell that the shift keeps inside moves by (floor(dCols/2), floor(dRows/2)). |
| `Grid.ReconcileCanMergeCells` | src/components/GameCanvas/GameCanvas.tsx:123-126 | A concrete shrink (20x20 to 6x20) clamps two snake cells onto one cell. |
| `Grid.RoomForFood` | src/components/GameCanvas/GameCanvas.tsx:25-28 | Pigeonhole: a body shorter than cols*rows leaves a free grid cell, so the placement loop can stop. |
| `Simulation.TickFrozen` | src/components/GameCanvas/GameCanvas.tsx:160 | A tick of a stopped or paused game changes nothing. |
| `Simulation.TickAdoptsPending` | src/components/GameCanvas/GameCanvas.tsx:160-161 | A running game adopts the pending heading, if any, and clears it. |
| `Simulation.TickOffGrid` | src/components/GameCanvas/GameCanvas.tsx:168-173 | A head outside [0,cols) x [0,rows) stops the game and reports the current score. Snake, food and score are unchanged. |
| `Simulation.TickSelfCollision` | src/components/GameCanvas/GameCanvas.tsx:174-179 | When growing, the game stops exactly when the head hits the whole body. Otherwise it stops exactly when the head hits a cell other than the tail. A hit reports the score and keeps the snake. |
| `Simulation.TickMoves` | src/components/GameCanvas/GameCanvas.tsx:180-186 | A move that does not eat keeps the length, makes the new head last and drops the old tail. Score and food are unchanged. |
| `Simulation.TickGrows` | src/components/GameCanvas/GameCanvas.tsx:180-183 | Eating adds exactly one cell (the old snake followed by the head) and exactly one point. The new food is inside the grid and off the snake. |
| `Simulation.TickKeepsInv` | src/components/GameCanvas/GameCanvas.tsx:158-187 | A tick keeps the invariant. The snake has at least 2 cells, the score is non-negative, the pending heading is never a reversal, and onGameOver was called never while alive and exactly once (with the score) after. |
| `Simulation.TickNeverReverses` | src/components/GameCanvas/GameCanvas.tsx:161 | The heading after a tick is never the reverse of the heading before it. |
| `Simulation.TickReportsOnce` | src/components/GameCanvas/GameCanvas.tsx:169-178 | onGameOver is called exactly at the tick where alive turns false, with that tick's score. A stopped game never restarts. |
| `Simulation.TickAccounting` | src/components/GameCanvas/GameCanvas.tsx:180-186 | A tick keeps the grid size. The snake grows by exactly the points scored, which are 0 or 1. |
| `Simulation.TickKeepsSoundBoard` | src/components/GameCanvas/GameCanvas.tsx:174-186 | If the snake lies in the grid with no repeated cell and the food is in the grid and off the snake, this still holds after a tick. |
| `Simulation.TicksAccounting` | src/components/GameCanvas/GameCanvas.tsx:209-212 | Over n ticks the invariant holds, so onGameOver fires at most once. The snake grows by exactly the points scored, at most n. A stopped game stays unchanged. |
| `GameCanvas.Game.constructor` | src/components/GameCanvas/GameCanvas.tsx:8-19 | The initial record: grid of floor(viewport/16), snake (5,5),(6,5), heading right, no pending heading, running, food at (10,10), score 0. |
| `GameCanvas.Game.RequestDirection` | src/components/GameCanvas/GameCanvas.tsx:53-58 | A reversal of the current heading leaves the pending heading as it was. Any other intent overwrites it (last write wins). The second handler at 69-75 is the same. |
| `GameCanvas.Game.PlaceFood` | src/components/GameCanvas/GameCanvas.tsx:21-30 | Given a free cell, the food lands inside the grid on a cell the snake does not occupy. Nothing else changes. |
| `GameCanvas.Game.Tick` | src/components/GameCanvas/GameCanvas.tsx:158-187 | The fields change as TickStep relates them, and the invariant is kept. |
| `GameCanvas.Game.ReconcileSnake` | src/components/GameCanvas/GameCanvas.tsx:120-133 | The snake becomes the reconciled snake: moved by half the change and clamped on a shrink from a known size, clamped where it is otherwise. |
| `GameCanvas.Game.ReplaceFoodOutside` | src/components/GameCanvas/GameCanvas.tsx:127 | Food at or beyond the right or bottom edge is drawn again, inside the grid and off the snake. Food anywhere else stays where it is. |
| `GameCanvas.Game.Resize` | src/components/GameCanvas/GameCanvas.tsx:115-137 | cols and rows are the viewport tile counts (at least 6). The snake is the reconciled snake. Food is re-placed, inside the grid and off the snake, exactly when `food.x >= cols` or `food.y >= rows`. Heading, pending heading, alive, score and the game-over log are unchanged. |
| `GameCanvas.DueTicks` | src/components/GameCanvas/GameCanvas.tsx:209-212 | The number of whole tick intervals in the accumulated time. |
| `GameCanvas.FrameLoop.constructor` | src/components/GameCanvas/GameCanvas.tsx:153-154 | The loop starts with `last` at the current time and an empty accumulator. |
| `GameCanvas.FrameLoop.Render` | src/components/GameCanvas/GameCanvas.tsx:190-212 | A stopped game is left untouched. Otherwise tick runs floor((acc + dt) / interval) times, leaving an accumulator below the interval (and non-negative when the time was). The game moves along exactly that many TickSteps. |
| `Scores.Entries` | src/hooks/useScore.ts:4-10 | A read yields the stored entries, or the empty list when the key is missing or unreadable. |
| `Scores.TiesFirst` | src/hooks/useScore.ts:16 | The count of leading entries scoring at least the new score. The entry after them scores less. |
| `Scores.InsertByScore` | src/hooks/useScore.ts:16 | Insertion adds exactly the new entry (as a multiset) and keeps a list sorted highest first. |
| `Scores.SortDesc` | src/hooks/useScore.ts:16 | The sort is a permutation of its input and ordered by score, highest first. |
| `Scores.SortedIdentity` | src/hooks/useScore.ts:16 | A list already sorted highest first comes out of the sort unchanged, ties included. |
| `Scores.SortStable` | src/hooks/useScore.ts:16 | The sort is stable: for every score, the entries with that score come out in the order they went in. Together with sortedness and permutation this fixes the sorted list exactly. |
| `Scores.Take` | src/hooks/useScore.ts:17 | `slice(0, n)`: a prefix of length min(len, n). |
| `Scores.Ranked` | src/hooks/useScore.ts:14-17 | The stored list has length min(n+1, 50) and is ordered by score, highest first. Every entry is the new one or an entry that was read. With fewer than 50 entries read, the new one is stored. |
| `Scores.InsertStable` | src/hooks/useScore.ts:16 | The stable sort puts the new entry behind every entry scoring at least as much and before every entry scoring less. |
| `Scores.SaveKeepsOlderTiesAhead` | src/hooks/useScore.ts:15-17 | The stored list is the first 50 of the sorted read list with the new entry inserted. Every read entry scoring at least the new score (ties included) stays ahead of it. |
| `Scores.ScoreStore.ReadScores` | src/hooks/useScore.ts:4-11 | `readScores` returns the stored list, or the empty list when nothing readable is stored. |
| `Scores.ScoreStore.SaveScore` | src/hooks/useScore.ts:13-18 | The slot afterwards holds the ranking of the list that was read plus the new entry. |
| `Scores.ScoreStore.ClearScores` | src/hooks/useScore.ts:20-22 | The key is removed, so the next read yields the empty list. |
| `TouchControls.Swipe` | src/components/TouchControls/TouchControls.tsx:21-30 | Nothing is emitted exactly when both axes moved less than 30. An emitted direction reaches at least 30 along the move and at least as far as any other direction. On a tie it is vertical. |
| `TouchControls.SwipeDetermined` | src/components/TouchControls/TouchControls.tsx:26-29 | The contract of Swipe fixes the emitted direction uniquely. |
| `TouchControls.SwipeReverses` | src/components/TouchControls/TouchControls.tsx:26-29 | The reversed move emits the opposite direction, or nothing when the move emits nothing. |
| `TouchControls.TouchTracker.constructor` | src/components/TouchControls/TouchControls.tsx:9 | No touch start is recorded at first. |
| `TouchControls.TouchTracker.OnTouchStart` | src/components/TouchControls/TouchControls.tsx:12-15 | The recorded start is overwritten with the touch point. |
| `TouchControls.TouchTracker.OnTouchEnd` | src/components/TouchControls/TouchControls.tsx:17-32 | Without a recorded start nothing is emitted and nothing changes. Otherwise Swipe of the move is emitted. A short move keeps the start and an emitted swipe clears it. |

## Left out

- Canvas drawing, the HUD, the game-over overlay, the debug overlay and its F3 toggle, and the `debug` field of the record: they only present state.
- DPR-aware canvas sizing and style writes, `ResizeObserver`, the 100 ms debounce, `orientationchange`, `requestAnimationFrame` and the event listeners: they are host scheduling and DOM plumbing. The resize handler is modelled as one call with the viewport size. A frame is one call of `FrameLoop.Render` with the current time.
- The key-to-direction map and the empty-detail check of the direction event: they decode input. `RequestDirection` takes an already decoded heading.
- `Math.random` in `placeFood`: the draw is a nondeterministic choice of any free cell, so the model says nothing about the distribution.
- `performance.now()` and the floating-point interval 1000/6 ms: time is counted in whole units of 1/6 ms, so the interval is exactly 1000 units. Floating-point rounding of the accumulator is not modelled.
- GameCanvas.Game.PlaceFood: requires a free cell. The source loops forever on a full board.
- GameCanvas.Game.Tick: requires a free cell for the new food whenever the tick eats, since the source never returns otherwise.
- GameCanvas.Game.Resize: requires a free cell when food must be re-placed, since the source never returns otherwise.
- GameCanvas.FrameLoop.Render: requires the snake length plus the ticks due in this frame to stay below cols*rows. This is a sufficient condition for every placement in the frame to find a free cell. It is stronger than the source's actual need, which depends on where food is drawn.
- `paused` is never set anywhere in the source. The field is modelled and honoured by `tick`, but no operation changes it.
- `onGameOver` is modelled as a ghost log of the scores passed to it. What the caller does with the score is not modelled.
- Score values are JavaScript numbers and are modelled as integers. `localStorage` and JSON encoding are modelled as an abstract slot holding nothing, unreadable text, or a list. A stored JSON value that parses to something other than a list is not modelled.
- `onTouchStart` with an empty touch list, `dispatchEvent`/`CustomEvent` and the on-screen buttons: emission is the return value of `OnTouchEnd`, and touch coordinates are integers.
- `src/components/HighScores/HighScores.tsx`, `src/components/StartMenu/StartMenu.tsx` and `src/App.tsx` are not part of this model. They are view wiring.
