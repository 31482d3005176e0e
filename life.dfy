/**
 The board of the game as life.ts keeps it: an array of row arrays that
 toggle writes into and render replaces with a fresh copy each generation,
 and the paused flag of the game around it.
 */
module Life {
  import opened Torus
  import opened Generation

  /** The cells of a grid of row arrays as values: Rows(a)[y] is row y. */
  ghost function Rows(a: array<array<bool>>): (g: Grid)
    reads a, a[..]
    ensures |g| == a.Length
  {
    seq(a.Length, y requires 0 <= y < a.Length reads a, a[..] => a[y][..])
  }

  /** No two rows of a are the same array, so a write to one row leaves the others alone. */
  ghost predicate DistinctRows(a: array<array<bool>>)
    reads a
  {
    forall i, j :: 0 <= i < a.Length && 0 <= j < a.Length && i != j ==> a[i] != a[j]
  }

  /** Rows(a) is g when a holds g row for row. */
  lemma RowsAre(a: array<array<bool>>, g: Grid)
    requires a.Length == |g|
    requires forall y :: 0 <= y < |g| ==> a[y][..] == g[y]
    ensures Rows(a) == g
  {
  }

  /** `matrix` in life.ts: size fresh rows of size dead cells each. */
  method Matrix(size: nat) returns (res: array<array<bool>>)
    ensures fresh(res) && res.Length == size
    ensures forall y :: 0 <= y < size ==> fresh(res[y]) && res[y].Length == size
    ensures DistinctRows(res)
    ensures forall y, x :: 0 <= y < size && 0 <= x < size ==> !res[y][x]
  {
    var hole := new bool[0];
    res := new array<bool>[size](_ => hole);
    for i := 0 to size
      invariant forall y :: 0 <= y < i ==> fresh(res[y]) && res[y].Length == size
      invariant forall y, z :: 0 <= y < i && 0 <= z < i && y != z ==> res[y] != res[z]
      invariant forall y, x :: 0 <= y < i && 0 <= x < size ==> !res[y][x]
    {
      res[i] := new bool[size](_ => false);
    }
  }

  /**
   `copy` in life.ts: a new outer array whose rows are new arrays holding
   the same cells. No row is shared with source, so later writes to the copy
   leave source as it was.
   */
  method Copy(source: array<array<bool>>) returns (res: array<array<bool>>)
    ensures fresh(res) && res.Length == source.Length
    ensures forall y :: 0 <= y < res.Length ==> fresh(res[y])
    ensures DistinctRows(res)
    ensures forall y :: 0 <= y < res.Length ==> res[y].Length == source[y].Length
    ensures Rows(res) == Rows(source)
  {
    var hole := new bool[0];
    res := new array<bool>[source.Length](_ => hole);
    for i := 0 to source.Length
      invariant forall y :: 0 <= y < i ==> fresh(res[y])
      invariant forall y, z :: 0 <= y < i && 0 <= z < i && y != z ==> res[y] != res[z]
      invariant forall y :: 0 <= y < i ==> res[y][..] == source[y][..]
    {
      var row := source[i];
      res[i] := new bool[row.Length](x requires 0 <= x < row.Length reads row => row[x]);
    }
    assert forall y :: 0 <= y < res.Length ==> Rows(res)[y] == Rows(source)[y];
  }

  /** The game board: CELLS rows of CELLS cells, one array per row. */
  class Board {
    var state: array<array<bool>>

    ghost predicate Valid()
      reads this, state
    {
      && state.Length == CELLS
      && (forall y :: 0 <= y < CELLS ==> state[y].Length == CELLS)
      && DistinctRows(state)
    }

    /** The cells of the board as a value. */
    ghost function Cells(): (g: Grid)
      reads this, state, state[..]
      requires Valid()
      ensures IsBoard(g)
    {
      Rows(state)
    }

    constructor (state: array<array<bool>>)
      requires state.Length == CELLS
      requires forall y :: 0 <= y < CELLS ==> state[y].Length == CELLS
      requires DistinctRows(state)
      ensures Valid() && this.state == state
    {
      this.state := state;
    }

    /**
     `Board.toggle` in life.ts: set the cell in column x of row y to s (alive
     when s is left out). Every other cell keeps its state.
     */
    method Toggle(x: int, y: int, s: bool := true)
      requires Valid()
      requires 0 <= x < CELLS && 0 <= y < CELLS
      modifies state[y]
      ensures Valid()
      ensures Cells() == old(Cells())[y := old(Cells())[y][x := s]]
    {
      state[y][x] := s;
      RowsAre(state, old(Cells())[y := old(Cells())[y][x := s]]);
    }

    /** Cell (y, x) of the board value is the cell in row array y, column x. */
    lemma CellsAt(g: Grid)
      requires Valid() && g == Cells()
      ensures forall y, x :: 0 <= y < CELLS && 0 <= x < CELLS ==> g[y][x] == state[y][x]
    {
      forall y, x | 0 <= y < CELLS && 0 <= x < CELLS
        ensures g[y][x] == state[y][x]
      {
        assert g[y] == state[y][..];
      }
    }

    /**
     The neighbour count of render: the live cells among the eight neighbours
     of row y, column x, each coordinate wrapped with fit.
     */
    method CountNeighbours(y: int, x: int) returns (n: nat)
      requires Valid()
      requires 0 <= y < CELLS && 0 <= x < CELLS
      ensures n <= 8
      ensures n == Neighbours(Cells(), y, x)
    {
      var up := Fit(y - 1);
      var down := Fit(y + 1);
      var left := Fit(x - 1);
      var right := Fit(x + 1);
      n := Bit(state[up][left]) + Bit(state[up][x]) + Bit(state[up][right])
        + Bit(state[y][left]) + Bit(state[y][right])
        + Bit(state[down][left]) + Bit(state[down][x]) + Bit(state[down][right]);
      ghost var g := Cells();
      CellsAt(g);
      assert n == Bit(g[up][left]) + Bit(g[up][x]) + Bit(g[up][right])
        + Bit(g[y][left]) + Bit(g[y][right])
        + Bit(g[down][left]) + Bit(g[down][x]) + Bit(g[down][right]);
      NeighboursVia(g, y, x, up, down, left, right);
    }

    /**
     The inner loop of render: the cells of row y of the buffer, visited left
     to right, each set by the rule from its neighbours on the board. The
     buffer row is not a row of the board, so the board is only read.
     */
    method RenderRow(snapshot: array<array<bool>>, y: int, ghost g: Grid)
      requires Valid() && g == Cells()
      requires 0 <= y < CELLS
      requires snapshot.Length == CELLS && snapshot[y].Length == CELLS
      requires forall i :: 0 <= i < CELLS ==> snapshot[y] != state[i]
      requires snapshot[y][..] == g[y]
      modifies snapshot[y]
      ensures snapshot[y][..] == NextRow(g, y)
    {
      ghost var next := NextRow(g, y);
      for x := 0 to CELLS
        invariant snapshot[y][..x] == next[..x]
        invariant snapshot[y][x..] == g[y][x..]
      {
        var neighbours := CountNeighbours(y, x);
        assert next[x] == Rule(g[y][x], neighbours);
        if !snapshot[y][x] && neighbours == 3 {
          snapshot[y][x] := true;
        } else if snapshot[y][x] && (neighbours < 2 || neighbours > 3) {
          snapshot[y][x] := false;
        }
      }
      assert next[..CELLS] == next;
      assert snapshot[y][..] == snapshot[y][..CELLS];
    }

    /**
     `Board.render` in life.ts: one generation. The cells are visited row by
     row into a copy of the board while every neighbour is read from the
     board itself, and the board then becomes a copy of that buffer. The
     result is NextGen of the board as it was, in fresh arrays.
     */
    method Render()
      requires Valid()
      modifies this
      ensures Valid()
      ensures fresh(state) && forall y :: 0 <= y < CELLS ==> fresh(state[y])
      ensures Cells() == NextGen(old(Cells()))
    {
      ghost var g := Cells();
      var snapshot := Copy(state);
      for y := 0 to CELLS
        invariant state == old(state) && Valid() && Cells() == g
        invariant forall i :: 0 <= i < CELLS ==> fresh(snapshot[i]) && snapshot[i].Length == CELLS
        invariant DistinctRows(snapshot)
        invariant forall i :: 0 <= i < CELLS ==> snapshot[i][..] == if i < y then NextRow(g, i) else g[i]
      {
        RenderRow(snapshot, y, g);
      }
      RowsAre(snapshot, NextGen(g));
      state := Copy(snapshot);
    }
  }

  /** The game: its board and whether the timer that renders it is stopped. */
  class GameOfLife {
    var board: Board
    var isPaused: bool

    ghost predicate Valid()
      reads this, board, board.state
    {
      board.Valid()
    }

    /** A game starts paused, on a board of dead cells. */
    constructor ()
      ensures Valid() && fresh(board) && fresh(board.state)
      ensures forall y :: 0 <= y < CELLS ==> fresh(board.state[y])
      ensures isPaused
      ensures board.Cells() == Dead()
    {
      var cells := Matrix(CELLS);
      board := new Board(cells);
      isPaused := true;
      RowsAre(cells, Dead());
    }

    /** `GameOfLife.pause` in life.ts, without its timer: flip the paused flag and return it. */
    method Pause() returns (paused: bool)
      modifies this`isPaused
      ensures isPaused == !old(isPaused)
      ensures paused == isPaused
    {
      isPaused := !isPaused;
      paused := isPaused;
    }
  }

  /** The five cells the script toggles, gathered one at a time. */
  lemma WalkerCells()
    ensures {} + {(1, 0)} + {(2, 1)} + {(0, 2)} + {(1, 2)} + {(2, 2)}
         == {(1, 0), (2, 1), (0, 2), (1, 2), (2, 2)}
  {
  }

  /** One toggle of the script: on a board holding the live cells in live, toggle(x, y) adds (y, x). */
  method PlaceWalkerCell(board: Board, ghost live: set<(int, int)>, x: int, y: int)
    requires board.Valid() && board.Cells() == FromCells(live)
    requires 0 <= x < CELLS && 0 <= y < CELLS
    modifies board.state[y]
    ensures board.Valid() && board.Cells() == FromCells(live + {(y, x)})
  {
    board.Toggle(x, y);
    FromCellsAdd(live, y, x);
  }

  /**
   The script at the end of life.ts: a new game with the walker placed by
   five toggles, each toggle(x, y) making row y, column x alive.
   */
  method NewGame() returns (game: GameOfLife)
    ensures fresh(game) && game.Valid() && game.isPaused
    ensures game.board.Cells() == Walker()
  {
    game := new GameOfLife();
    var board := game.board;
    DeadIsFromNoCells();
    PlaceWalkerCell(board, {}, 0, 1);
    PlaceWalkerCell(board, {} + {(1, 0)}, 1, 2);
    PlaceWalkerCell(board, {} + {(1, 0)} + {(2, 1)}, 2, 0);
    PlaceWalkerCell(board, {} + {(1, 0)} + {(2, 1)} + {(0, 2)}, 2, 1);
    PlaceWalkerCell(board, {} + {(1, 0)} + {(2, 1)} + {(0, 2)} + {(1, 2)}, 2, 2);
    WalkerCells();
  }
}
