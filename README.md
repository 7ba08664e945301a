# Snake game state, modelled in Dafny

This project models the game logic of a browser Snake game: a snake of grid
cells moves one cell per tick on a 20 x 20 grid, grows when its head reaches
the apple, and the game ends when the head leaves the grid or runs into the
snake. The React component keeps its state in five hooks (`snake`, `apple`,
`dir`, `speed`, `gameOver`) and changes them from four handlers. The model is a
`GameState` class with those fields, where `running` stands for
`speed !== null`, and one method per handler.

- `constants.dfy`, module `Constants`: the fixed configuration (canvas size,
  cell size, tick interval, initial snake and apple, arrow-key directions) as
  constants, and the size of the cell grid they define.
- `grid.dfy`, module `Grid`: the rules of that grid (cells on it, unit
  directions, distinct segments, the `Collides` predicate), facts about the
  configuration stated with them, and a counting argument: a sequence of
  cells shorter than the grid leaves a grid cell free.
- `app.dfy`, module `App`: the collision test, apple placement, the snake's
  move, the `GameState` class with `Tick` (the game loop), `Start`, `EndGame`
  and `SetDirFromKey` (the key handler), lemmas about the rules, and four
  scenario methods that run the class from a fresh start.

The object invariant `GameState.Valid()` says four things. The snake is never
empty. The direction is a unit vector. A running game is not over. A game that
is not over is `Playing`: its segments are pairwise distinct and on the grid,
and the apple is on a grid cell no segment occupies. The constructor
establishes this invariant, and `Start`, `EndGame`, `SetDirFromKey` and `Tick`
keep it. `CheckAppleCollision` is a step inside `Tick` that moves only the
apple; it does not keep `Valid()` by itself, and `Tick` restores it once the
snake has moved. `Tick` is specified against the pure function `Moved` and
the predicate `Collides` of module `Grid`. `Collides` is the reference
definition of `checkCollision` (`src/App.js:57-70`): the piece is off the grid
or equal to some segment. A free cell is one where a piece does not collide.
`CheckCollision` keeps the source's loop and is proved equal to `Collides`.
The lemmas prove what `Moved` and `Collides` imply.

Two behaviours of the code are modelled as written:

- The game loop has no early return after a collision (`src/App.js:96-98`).
  The snake is still moved on that tick. The code does not stop it from
  growing then, but it never does, because the apple lies on a free grid cell
  (`EatingNeverCollides`; `Tick` states that a tick ending the game keeps the
  length and the apple). A tick that leaves the state as it was on a
  collision is the evident design intent, but it is not what the code does,
  so the model follows the code. `WallScenario` shows the snake moved off the
  grid.
- The collision test runs against the snake before the move, tail included
  (`checkCollision(newSnakeHead)` uses the default `snk = snake`). Stepping
  onto the cell the tail is about to leave ends the game
  (`EnteringTailCellCollides`, `ReverseScenario`).

Apple placement is a loop that draws random cells until one is free of the
grown snake. The model replaces it with a choice of any free grid cell, which
is every outcome the loop can produce. The loop never exits if no cell is
free, so a tick that eats requires that a free cell exists.
`GrowthLeavesFreeCell` discharges that precondition for any snake shorter
than 399 segments.

## Model

| member | source | states |
|---|---|---|
| `Constants.GridIsTwentyByTwenty` | src/constants.js:2-17 | cell size and tick interval are positive, the canvas is divisible by the cell size, and the grid is 20 x 20 cells |
| `Grid.DirectionsAreArrowKeys` | src/constants.js:21-26 | the direction table is defined for exactly key codes 37 to 40, maps them to left, up, right and down, and each value is a unit vector along an axis |
| `Grid.SnakeStartIsWellFormed` | src/constants.js:5-11 | the initial snake has two distinct, adjacent cells on the grid, and the initial apple is on the grid and on neither of them |
| `Grid.FreeCellWhenNotFull` | src/App.js:79-82 | a sequence of fewer cells than the grid has (400) leaves some grid cell free, so the resampling loop has a cell to find |
| `App.CheckCollision` | src/App.js:57-70 | returns true exactly when the piece is left of, right of, above or below the grid, or equals some segment of `snk`; false otherwise |
| `App.PlaceApple` | src/App.js:47-82 | the new apple is on the grid and on no segment of the snake it was placed for, which is the loop's exit condition |
| `App.Moved` | src/App.js:93-97 | the moved snake starts with the new head followed by the old segments in order; it holds every old segment when the snake ate (length + 1), and all but the last otherwise (length unchanged) |
| `App.MovePreservesPlaying` | src/App.js:92-99 | a step that does not collide keeps the snake distinct and on the grid and the apple on a free cell, both when the apple is eaten and replaced and when it stays |
| `App.EatingNeverCollides` | src/App.js:77-84 | in a playing state a head that reaches the apple never collides, so growth and game over do not happen on the same tick |
| `App.EnteringTailCellCollides` | src/App.js:94-96 | stepping onto the old tail cell counts as a collision although the moved snake would have distinct segments |
| `App.ReversingCollides` | src/App.js:40-41 | steering straight back into the second segment uses a unit vector that some arrow key code 37 to 40 selects in the direction table, so the key handler accepts it, and the next head then collides |
| `App.GrowthLeavesFreeCell` | src/App.js:79-82 | while the grown snake is shorter than the grid, some free cell exists for the new apple |
| `App.GameState.constructor` | src/App.js:18-22 | the mounted component holds the initial snake, apple and direction `[0, -1]`, is not running and not over, and satisfies the invariant |
| `App.GameState.EndGame` | src/App.js:30-33 | stops the game (`running` false) and sets game over; snake, apple and direction are unchanged |
| `App.GameState.SetDirFromKey` | src/App.js:40-41 | sets the direction to the table entry for key codes 37 to 40 and leaves the whole state unchanged for any other key; no check against reversing |
| `App.GameState.Start` | src/App.js:104-110 | sets the initial snake, apple and direction, running, not over, whatever the state before; the result does not depend on the prior state, so starting twice equals starting once |
| `App.GameState.CheckAppleCollision` | src/App.js:77-87 | reports a meal exactly when the new snake's head is on the apple; then the apple moves to a free cell of the new snake, otherwise it stays |
| `App.GameState.Tick` | src/App.js:92-99 | the new head is old head + direction and the direction is unchanged; the snake becomes `Moved` of the old snake (length + 1 on the apple, unchanged otherwise); game over is set and running cleared exactly when the new head is off the grid or on a segment of the old snake; a new apple lies on a free cell of the new snake; a tick that ends the game neither grows the snake nor moves the apple; the invariant is kept, so the snake's length never decreases and a game not over stays distinct, on the grid and with the apple off the snake |
| `App.FirstTickScenario` | src/App.js:92-99 | from a fresh start one tick gives the snake `[[8,6],[8,7]]` and the game is not over |
| `App.EatScenario` | src/App.js:92-99 | from a fresh start the fourth tick eats the apple at `[8,3]`: the snake grows to three segments and the new apple is on the grid and on none of them |
| `App.ReverseScenario` | src/App.js:92-99 | from a fresh start, down arrow and one tick end the game on the tail cell, and the snake still moves to `[[8,8],[8,7]]` |
| `App.WallScenario` | src/App.js:92-99 | from a fresh start, left arrow and nine ticks end the game at the left wall, and the snake still moves to `[[-1,7],[0,7]]` |

## Left out

- Rendering: the canvas drawing effect (`src/App.js:113-121`) and the markup with its button and game-over text (`src/App.js:123-134`) are display only.
- The interval timer: `useInterval` lives in a file that is not part of this model. Its effect is modelled: `Tick` requires `running`, which stands for a non-null `speed`; the value `SPEED` is kept only as a constant.
- Randomness: `Math.random` and `Math.floor` in `createApple` are replaced by a choice of any free cell; the probability of each cell is not modelled.
- The resampling loop itself: it has no bound, and when no cell is free it never exits; the model cannot express that non-termination, so `Tick` and `CheckAppleCollision` require a free cell when the snake eats.
- The deep copy of the snake through JSON: a Dafny sequence is a value, so copying it is plain assignment.
- React state batching and closures: each handler is one atomic update of the fields.
- Pixel scaling is kept only where the logic uses it, in the wall test of `CheckCollision`; everything else works in cells.
- The keyboard event object: `SetDirFromKey` takes the key code only.
