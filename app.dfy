/**
 The game state of the Snake component and its transitions: one tick of the
 game loop, starting and ending a game, steering with the arrow keys, and the
 collision test the loop and the apple placement share.
 */
module App {
  import opened Constants
  import opened Grid

  /** The direction the snake faces when the component mounts and after a restart. */
  const INITIAL_DIR := Pos(0, -1)

  /** The cell one step from `p` along `d`. */
  function Step(p: Pos, d: Pos): Pos {
    Pos(p.x + d.x, p.y + d.y)
  }

  /**
   The snake after one tick: `head` in front of every old segment, and the
   last old segment dropped unless the snake ate.
   */
  function Moved(snk: seq<Pos>, head: Pos, ate: bool): (r: seq<Pos>)
    requires |snk| >= 1
    ensures |r| == if ate then |snk| + 1 else |snk|
    ensures r[0] == head
    ensures forall i :: 1 <= i < |r| ==> r[i] == snk[i - 1]
  {
    var grown := [head] + snk;
    if ate then grown else grown[..|grown| - 1]
  }

  /**
   What holds while a game is not over: a non-empty snake on the grid whose
   segments are pairwise distinct, and the apple on a free grid cell.
   */
  predicate Playing(snk: seq<Pos>, apple: Pos) {
    |snk| >= 1 && Distinct(snk) && AllInGrid(snk) && !Collides(apple, snk)
  }

  /**
   The test of the game loop and of the apple placement: it checks the four
   walls in pixels first, then scans the segments.
   */
  method CheckCollision(piece: Pos, snk: seq<Pos>) returns (hit: bool)
    ensures hit == Collides(piece, snk)
  {
    GridIsTwentyByTwenty();
    if piece.x * SCALE >= CANVAS_SIZE[0] || piece.x < 0 || piece.y * SCALE >= CANVAS_SIZE[1] || piece.y < 0 {
      return true;
    }
    for i := 0 to |snk|
      invariant forall j :: 0 <= j < i ==> snk[j] != piece
    {
      if piece.x == snk[i].x && piece.y == snk[i].y {
        return true;
      }
    }
    return false;
  }

  /**
   The apple placement: draws cells of the grid until one is free of
   `newSnake`. Each draw is a fresh random cell, so any free cell can come
   out; the draw is modelled as a choice among the free cells.
   */
  method PlaceApple(newSnake: seq<Pos>) returns (a: Pos)
    requires exists p :: !Collides(p, newSnake)
    ensures !Collides(a, newSnake)
  {
    var x, y :| 0 <= x < WIDTH && 0 <= y < HEIGHT && !Collides(Pos(x, y), newSnake);
    a := Pos(x, y);
  }

  /**
   A step that does not collide keeps the game in a playing state, whether
   the snake eats (and the apple moves to a free cell of the grown snake) or
   not (and the apple stays).
   */
  lemma MovePreservesPlaying(snk: seq<Pos>, apple: Pos, head: Pos, newApple: Pos)
    requires Playing(snk, apple)
    requires !Collides(head, snk)
    requires head == apple ==> !Collides(newApple, Moved(snk, head, true))
    requires head != apple ==> newApple == apple
    ensures Playing(Moved(snk, head, head == apple), newApple)
  {
  }

  /**
   Under the playing invariant the new head never both collides and eats:
   the apple lies on a free grid cell.
   */
  lemma EatingNeverCollides(snk: seq<Pos>, apple: Pos, d: Pos)
    requires Playing(snk, apple)
    requires Step(snk[0], d) == apple
    ensures !Collides(Step(snk[0], d), snk)
  {
  }

  /**
   The collision test runs against the snake before the move, tail
   included: stepping onto the cell the tail is about to leave ends the game,
   although the moved snake would not overlap itself.
   */
  lemma EnteringTailCellCollides(snk: seq<Pos>, d: Pos)
    requires |snk| >= 2 && Distinct(snk)
    requires Step(snk[0], d) == snk[|snk| - 1]
    ensures Collides(Step(snk[0], d), snk)
    ensures Distinct(Moved(snk, Step(snk[0], d), false))
  {
  }

  /**
   Steering straight back into the neck is a direction some arrow key
   selects, and the next head then collides.
   */
  lemma ReversingCollides(snk: seq<Pos>, d: Pos)
    requires |snk| >= 2 && Adjacent(snk[0], snk[1])
    requires d == Pos(snk[1].x - snk[0].x, snk[1].y - snk[0].y)
    ensures IsCardinal(d)
    ensures exists k :: 37 <= k <= 40 && DIRECTIONS[k] == d
    ensures Collides(Step(snk[0], d), snk)
  {
    DirectionsAreArrowKeys();
    if d == Pos(-1, 0) {
      assert DIRECTIONS[37] == d;
    } else if d == Pos(0, -1) {
      assert DIRECTIONS[38] == d;
    } else if d == Pos(1, 0) {
      assert DIRECTIONS[39] == d;
    } else {
      assert DIRECTIONS[40] == d;
    }
  }

  /**
   While the grown snake stays shorter than the grid has cells, the apple
   can be placed, so the precondition of a tick that eats can be met.
   */
  lemma GrowthLeavesFreeCell(snk: seq<Pos>, head: Pos)
    requires |snk| >= 1 && |snk| + 1 < WIDTH * HEIGHT
    ensures exists p :: !Collides(p, Moved(snk, head, true))
  {
    FreeCellWhenNotFull(Moved(snk, head, true));
  }

  /**
   The state of the game component. `running` stands for a non-null tick
   interval: the game loop fires only while it is set.
   */
  class GameState {
    var snake: seq<Pos>
    var apple: Pos
    var dir: Pos
    var running: bool
    var gameOver: bool

    /**
     The object invariant: the snake is never empty, the direction is a unit
     vector, a running game is not over, and a game that is not over is in
     a playing state.
     */
    ghost predicate Valid()
      reads this
    {
      && |snake| >= 1
      && IsCardinal(dir)
      && (running ==> !gameOver)
      && (!gameOver ==> Playing(snake, apple))
    }

    /** The cell the head moves to on the next tick. */
    function NextHead(): Pos
      reads this
      requires |snake| >= 1
    {
      Step(snake[0], dir)
    }

    /** The state when the component mounts: initial snake and apple, not running. */
    constructor ()
      ensures snake == SNAKE_START && apple == APPLE_START && dir == INITIAL_DIR
      ensures !running && !gameOver
      ensures Valid()
    {
      snake := SNAKE_START;
      apple := APPLE_START;
      dir := INITIAL_DIR;
      running := false;
      gameOver := false;
      SnakeStartIsWellFormed();
    }

    /** Stops the tick interval and raises the game-over flag. */
    method EndGame()
      requires Valid()
      modifies this
      ensures !running && gameOver
      ensures snake == old(snake) && apple == old(apple) && dir == old(dir)
      ensures Valid()
    {
      running := false;
      gameOver := true;
    }

    /**
     Steering: the four arrow key codes select their direction, any other
     key leaves the state alone. Reversing is not refused.
     */
    method SetDirFromKey(keyCode: int)
      requires Valid()
      modifies this
      ensures if 37 <= keyCode <= 40 then dir == DIRECTIONS[keyCode] else dir == old(dir)
      ensures snake == old(snake) && apple == old(apple)
      ensures running == old(running) && gameOver == old(gameOver)
      ensures Valid()
    {
      DirectionsAreArrowKeys();
      if keyCode >= 37 && keyCode <= 40 {
        dir := DIRECTIONS[keyCode];
      }
    }

    /**
     Restarts the game from the initial snake, apple and direction with the
     interval running, whatever the state before; so two starts in a row
     leave the same state as one.
     */
    method Start()
      requires Valid()
      modifies this
      ensures snake == SNAKE_START && apple == APPLE_START && dir == INITIAL_DIR
      ensures running && !gameOver
      ensures Valid()
    {
      snake := SNAKE_START;
      apple := APPLE_START;
      dir := INITIAL_DIR;
      running := true;
      gameOver := false;
      SnakeStartIsWellFormed();
    }

    /**
     When `newSnake` starts on the apple, places a new apple on a free cell
     of `newSnake` and reports that the snake ate; otherwise changes nothing.
     */
    method CheckAppleCollision(newSnake: seq<Pos>) returns (ate: bool)
      requires |newSnake| >= 1
      requires newSnake[0] == apple ==> exists p :: !Collides(p, newSnake)
      modifies this`apple
      ensures ate == (newSnake[0] == old(apple))
      ensures if ate then !Collides(apple, newSnake) else apple == old(apple)
    {
      if newSnake[0] == apple {
        var newApple := PlaceApple(newSnake);
        apple := newApple;
        return true;
      }
      return false;
    }

    /**
     One tick of the game loop. The head moves one cell along `dir`. If the
     new head is off the grid or on a segment of the snake before the move,
     the game ends; the move is completed either way. The snake grows when
     the new head is on the apple, which then moves to a free cell of the
     grown snake; otherwise the tail is dropped.
     */
    method Tick()
      requires Valid() && running
      requires NextHead() == apple ==> exists p :: !Collides(p, Moved(snake, NextHead(), true))
      modifies this
      ensures Valid()
      ensures dir == old(dir)
      ensures snake == Moved(old(snake), old(NextHead()), old(NextHead()) == old(apple))
      ensures |snake| == |old(snake)| + (if old(NextHead()) == old(apple) then 1 else 0)
      ensures gameOver == Collides(old(NextHead()), old(snake))
      ensures running == !gameOver
      ensures old(NextHead()) == old(apple) ==> !Collides(apple, snake)
      ensures old(NextHead()) != old(apple) ==> apple == old(apple)
      ensures gameOver ==> |snake| == |old(snake)| && apple == old(apple)
    {
      var snakeCopy := snake;
      var newSnakeHead := Step(snakeCopy[0], dir);
      snakeCopy := [newSnakeHead] + snakeCopy;
      var hit := CheckCollision(newSnakeHead, snake);
      if hit {
        EndGame();
      }
      ghost var before := old(snake);
      ghost var oldApple := apple;
      var ate := CheckAppleCollision(snakeCopy);
      if !ate {
        snakeCopy := snakeCopy[..|snakeCopy| - 1];
      }
      snake := snakeCopy;
      if !hit {
        MovePreservesPlaying(before, oldApple, newSnakeHead, apple);
      }
    }
  }

  /** From a fresh start, one tick upwards drops the tail and the game goes on. */
  method FirstTickScenario() returns (snk: seq<Pos>, over: bool)
    ensures snk == [Pos(8, 6), Pos(8, 7)]
    ensures !over
  {
    GridIsTwentyByTwenty();
    var game := new GameState();
    game.Start();
    game.Tick();
    snk, over := game.snake, game.gameOver;
  }

  /**
   From a fresh start, the fourth tick upwards reaches the apple: the snake
   grows from two to three segments and the new apple is on none of them.
   */
  method EatScenario() returns (snk: seq<Pos>, apple: Pos, over: bool)
    ensures snk == [Pos(8, 3), Pos(8, 4), Pos(8, 5)]
    ensures InGrid(apple) && apple !in snk
    ensures !over
  {
    GridIsTwentyByTwenty();
    var game := new GameState();
    game.Start();
    var n := 0;
    while n < 3
      invariant 0 <= n <= 3
      invariant game.Valid() && game.running && game.dir == INITIAL_DIR && game.apple == APPLE_START
      invariant game.snake == [Pos(8, 7 - n), Pos(8, 8 - n)]
    {
      game.Tick();
      n := n + 1;
    }
    assert !Collides(Pos(0, 0), Moved(game.snake, game.NextHead(), true));
    game.Tick();
    snk, apple, over := game.snake, game.apple, game.gameOver;
  }

  /**
   From a fresh start, pressing the down arrow reverses the snake onto its
   own tail cell: the game ends, and the snake has still moved.
   */
  method ReverseScenario() returns (snk: seq<Pos>, over: bool, running: bool)
    ensures snk == [Pos(8, 8), Pos(8, 7)]
    ensures over && !running
  {
    GridIsTwentyByTwenty();
    var game := new GameState();
    game.Start();
    game.SetDirFromKey(40);
    game.Tick();
    snk, over, running := game.snake, game.gameOver, game.running;
  }

  /**
   From a fresh start, steering left runs the head into the left wall on the
   ninth tick: the game ends and the snake has still moved off the grid.
   */
  method WallScenario() returns (snk: seq<Pos>, over: bool, running: bool)
    ensures snk == [Pos(-1, 7), Pos(0, 7)]
    ensures over && !running
  {
    GridIsTwentyByTwenty();
    var game := new GameState();
    game.Start();
    game.SetDirFromKey(37);
    var n := 0;
    while n < 8
      invariant 0 <= n <= 8
      invariant game.Valid() && game.running && game.dir == Pos(-1, 0) && game.apple == APPLE_START
      invariant game.snake == [Pos(8 - n, 7), Pos(9 - n, 7)] || (n == 0 && game.snake == SNAKE_START)
    {
      game.Tick();
      n := n + 1;
    }
    game.Tick();
    snk, over, running := game.snake, game.gameOver, game.running;
  }
}
