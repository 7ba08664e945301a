/**
 The rules of the cell grid the game is played on: which cells lie on it,
 unit directions, when a piece collides with the walls or the snake, and a
 counting argument that a snake shorter than the grid leaves a free cell.
 */
module Grid {
  import opened Constants

  /** The cell lies on the grid [0, WIDTH) x [0, HEIGHT). */
  predicate InGrid(p: Pos) {
    0 <= p.x < WIDTH && 0 <= p.y < HEIGHT
  }

  /** A vector of length one along an axis. */
  predicate IsCardinal(d: Pos) {
    (d.x == 0 && (d.y == 1 || d.y == -1)) || (d.y == 0 && (d.x == 1 || d.x == -1))
  }

  /** Two cells share a side. */
  predicate Adjacent(p: Pos, q: Pos) {
    IsCardinal(Pos(q.x - p.x, q.y - p.y))
  }

  /** No cell occurs twice. */
  predicate Distinct(s: seq<Pos>) {
    forall i, j :: 0 <= i < j < |s| ==> s[i] != s[j]
  }

  /** Every cell lies on the grid. */
  predicate AllInGrid(s: seq<Pos>) {
    forall i :: 0 <= i < |s| ==> InGrid(s[i])
  }

  /** The piece is off the grid, or lies on some segment of `snk`. */
  predicate Collides(piece: Pos, snk: seq<Pos>) {
    !InGrid(piece) || piece in snk
  }

  lemma DirectionsAreArrowKeys()
    ensures DIRECTIONS.Keys == {37, 38, 39, 40}
    ensures forall k :: k in DIRECTIONS ==> IsCardinal(DIRECTIONS[k])
    ensures DIRECTIONS[37] == Pos(-1, 0) && DIRECTIONS[38] == Pos(0, -1)
    ensures DIRECTIONS[39] == Pos(1, 0) && DIRECTIONS[40] == Pos(0, 1)
    ensures forall k :: k in DIRECTIONS <==> 37 <= k <= 40
  {
  }

  lemma SnakeStartIsWellFormed()
    ensures |SNAKE_START| == 2
    ensures Distinct(SNAKE_START) && AllInGrid(SNAKE_START)
    ensures Adjacent(SNAKE_START[0], SNAKE_START[1])
    ensures InGrid(APPLE_START) && APPLE_START !in SNAKE_START
  {
  }

  /** The cells (x, y) with x < n, in row y. */
  ghost function RowCells(y: int, n: nat): set<Pos> {
    if n == 0 then {} else RowCells(y, n - 1) + {Pos(n - 1, y)}
  }

  /** The cells of the rows y < m, each WIDTH cells wide. */
  ghost function GridRows(m: nat): set<Pos> {
    if m == 0 then {} else GridRows(m - 1) + RowCells(m - 1, WIDTH)
  }

  lemma {:induction false} InRowCells(y: int, n: nat, p: Pos)
    requires p.y == y && 0 <= p.x < n
    ensures p in RowCells(y, n)
  {
    if p.x < n - 1 {
      InRowCells(y, n - 1, p);
    }
  }

  lemma {:induction false} InGridRows(m: nat, p: Pos)
    requires 0 <= p.y < m && 0 <= p.x < WIDTH
    ensures p in GridRows(m)
  {
    if p.y < m - 1 {
      InGridRows(m - 1, p);
    } else {
      InRowCells(m - 1, WIDTH, p);
    }
  }

  lemma {:induction false} RowCellsOnly(y: int, n: nat, p: Pos)
    requires p in RowCells(y, n)
    ensures p.y == y && 0 <= p.x < n
  {
    if p != Pos(n - 1, y) {
      RowCellsOnly(y, n - 1, p);
    }
  }

  lemma {:induction false} GridRowsOnly(m: nat, p: Pos)
    requires p in GridRows(m)
    ensures 0 <= p.y < m && 0 <= p.x < WIDTH
  {
    if p in GridRows(m - 1) {
      GridRowsOnly(m - 1, p);
    } else {
      RowCellsOnly(m - 1, WIDTH, p);
    }
  }

  lemma {:induction false} RowCellsCount(y: int, n: nat)
    ensures |RowCells(y, n)| == n
  {
    if n > 0 {
      RowCellsCount(y, n - 1);
      if Pos(n - 1, y) in RowCells(y, n - 1) {
        RowCellsOnly(y, n - 1, Pos(n - 1, y));
      }
    }
  }

  lemma {:induction false} GridRowsCount(m: nat)
    ensures |GridRows(m)| == m * WIDTH
  {
    if m > 0 {
      GridRowsCount(m - 1);
      RowCellsCount(m - 1, WIDTH);
      var below, row := GridRows(m - 1), RowCells(m - 1, WIDTH);
      forall p | p in row
        ensures p !in below
      {
        RowCellsOnly(m - 1, WIDTH, p);
        if p in below {
          GridRowsOnly(m - 1, p);
        }
      }
      assert |below + row| == |below| + |row|;
    }
  }

  /** The grid holds exactly the cells InGrid accepts: WIDTH * HEIGHT of them. */
  lemma GridCells()
    ensures |GridRows(HEIGHT)| == WIDTH * HEIGHT
    ensures forall p :: p in GridRows(HEIGHT) <==> InGrid(p)
  {
    GridRowsCount(HEIGHT);
    forall p
      ensures p in GridRows(HEIGHT) <==> InGrid(p)
    {
      if InGrid(p) {
        InGridRows(HEIGHT, p);
      }
      if p in GridRows(HEIGHT) {
        GridRowsOnly(HEIGHT, p);
      }
    }
  }

  lemma {:induction false} SetOfSeqSize(s: seq<Pos>)
    ensures |set p | p in s| <= |s|
  {
    if s != [] {
      SetOfSeqSize(s[1..]);
      assert (set p | p in s) == (set p | p in s[1..]) + {s[0]};
    }
  }

  lemma SubsetSize(a: set<Pos>, b: set<Pos>)
    requires a <= b
    ensures |a| <= |b|
  {
    assert b == a + (b - a);
  }

  /**
   As long as a sequence of cells is shorter than the grid has cells, some
   grid cell is free of it, so a piece placed there does not collide.
   */
  lemma FreeCellWhenNotFull(snk: seq<Pos>)
    requires |snk| < WIDTH * HEIGHT
    ensures exists p :: !Collides(p, snk)
  {
    var occupied := set p | p in snk;
    var grid := GridRows(HEIGHT);
    GridCells();
    SetOfSeqSize(snk);
    var free := grid - occupied;
    assert grid == (grid * occupied) + free;
    SubsetSize(grid * occupied, occupied);
    var p :| p in free;
    assert !Collides(p, snk);
  }
}
