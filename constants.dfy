/**
 The fixed configuration of the Snake game: canvas and cell size, tick
 interval, initial snake and apple, and the arrow-key direction table.
 Positions are grid cells; the canvas is CANVAS_SIZE pixels and a cell is
 SCALE pixels wide, so the game is played on a WIDTH x HEIGHT cell grid.
 */
module Constants {

  /** A grid cell, or a direction vector: the source's `[x, y]` pairs. */
  datatype Pos = Pos(x: int, y: int)

  /** Canvas width and height in pixels. */
  const CANVAS_SIZE: seq<int> := [800, 800]

  /** The two cells the snake starts on, head first. */
  const SNAKE_START: seq<Pos> := [Pos(8, 7), Pos(8, 8)]

  /** Where the first apple lies. */
  const APPLE_START := Pos(8, 3)

  /** Side of one cell in pixels. */
  const SCALE := 40

  /** Milliseconds between two ticks while the game runs. */
  const SPEED := 100

  /** Arrow key codes mapped to unit direction vectors (y grows downwards). */
  const DIRECTIONS: map<int, Pos> := map[
    38 := Pos(0, -1),  // up
    40 := Pos(0, 1),   // down
    37 := Pos(-1, 0),  // left
    39 := Pos(1, 0)    // right
  ]

  /** Grid size in cells. */
  const WIDTH := CANVAS_SIZE[0] / SCALE
  const HEIGHT := CANVAS_SIZE[1] / SCALE

  lemma GridIsTwentyByTwenty()
    ensures SCALE > 0 && SPEED > 0
    ensures CANVAS_SIZE[0] % SCALE == 0 && CANVAS_SIZE[1] % SCALE == 0
    ensures WIDTH == 20 && HEIGHT == 20
    ensures WIDTH * SCALE == CANVAS_SIZE[0] && HEIGHT * SCALE == CANVAS_SIZE[1]
  {
  }
}
