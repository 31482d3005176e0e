/**
 One generation of Conway's Game of Life on the CELLS x CELLS torus, as a
 pure function of the previous generation. The board class in module Life
 computes it cell by cell in place and is proved to agree with NextGen.
 */
module Generation {
  import opened Torus

  /** A board as values: g[y][x] is the cell in row y, column x; true is alive. */
  type Grid = seq<seq<bool>>

  /** g has CELLS rows of CELLS cells each. */
  predicate IsBoard(g: Grid)
  {
    |g| == CELLS && forall y :: 0 <= y < |g| ==> |g[y]| == CELLS
  }

  /** The board every game starts from: no cell alive. */
  function Dead(): (g: Grid)
    ensures IsBoard(g)
    ensures forall y, x :: 0 <= y < CELLS && 0 <= x < CELLS ==> !g[y][x]
  {
    seq(CELLS, _ => seq(CELLS, _ => false))
  }

  /** `Number(b)` in `render` of life.ts: 1 for a live cell, 0 for a dead one. */
  function Bit(b: bool): nat
  {
    if b then 1 else 0
  }

  /**
   The live cells among the eight neighbours of (y, x), each coordinate taken
   around the torus. As in `render` of life.ts, the cell's own row and column
   are used as they are, since they are already on the board.
   */
  function Neighbours(g: Grid, y: int, x: int): (r: nat)
    requires IsBoard(g)
    requires 0 <= y < CELLS && 0 <= x < CELLS
    ensures r <= 8
  {
    Bit(g[Wrap(y - 1)][Wrap(x - 1)])
    + Bit(g[Wrap(y - 1)][x])
    + Bit(g[Wrap(y - 1)][Wrap(x + 1)])
    + Bit(g[y][Wrap(x - 1)])
    + Bit(g[y][Wrap(x + 1)])
    + Bit(g[Wrap(y + 1)][Wrap(x - 1)])
    + Bit(g[Wrap(y + 1)][x])
    + Bit(g[Wrap(y + 1)][Wrap(x + 1)])
  }

  /** Neighbours read through row and column indices already wrapped by the caller. */
  lemma NeighboursVia(g: Grid, y: int, x: int, up: int, down: int, left: int, right: int)
    requires IsBoard(g)
    requires 0 <= y < CELLS && 0 <= x < CELLS
    requires up == Wrap(y - 1) && down == Wrap(y + 1)
    requires left == Wrap(x - 1) && right == Wrap(x + 1)
    ensures Neighbours(g, y, x) ==
      Bit(g[up][left]) + Bit(g[up][x]) + Bit(g[up][right])
      + Bit(g[y][left]) + Bit(g[y][right])
      + Bit(g[down][left]) + Bit(g[down][x]) + Bit(g[down][right])
  {
  }

  /**
   The rule in the order `render` in life.ts applies it: a dead cell with exactly three
   live neighbours is born; a live cell with fewer than two or more than three
   dies; any other cell keeps its state.
   */
  function Rule(alive: bool, n: nat): bool
  {
    if !alive && n == 3 then true
    else if alive && (n < 2 || n > 3) then false
    else alive
  }

  /** The same rule in its usual short form, B3/S23: alive next exactly when three neighbours are, or two are and the cell is. */
  lemma RuleIsB3S23(alive: bool, n: nat)
    ensures Rule(alive, n) <==> n == 3 || (alive && n == 2)
  {
  }

  /**
   The state of cell (y, x) in the generation after g: the rule applied to the
   cell and its neighbour count, both read from g alone.
   */
  function NextCell(g: Grid, y: int, x: int): (alive: bool)
    requires IsBoard(g)
    requires 0 <= y < CELLS && 0 <= x < CELLS
    ensures alive <==> Neighbours(g, y, x) == 3 || (g[y][x] && Neighbours(g, y, x) == 2)
  {
    RuleIsB3S23(g[y][x], Neighbours(g, y, x));
    Rule(g[y][x], Neighbours(g, y, x))
  }

  /**
   The next generation: every cell is decided by NextCell from g, so no cell
   sees another's new state and the order the cells are visited in is
   irrelevant.
   */
  function NextGen(g: Grid): (r: Grid)
    requires IsBoard(g)
    ensures IsBoard(r)
  {
    seq(CELLS, y requires 0 <= y < CELLS => NextRow(g, y))
  }

  /** Row y of the next generation. */
  function NextRow(g: Grid, y: int): (row: seq<bool>)
    requires IsBoard(g)
    requires 0 <= y < CELLS
    ensures |row| == CELLS
  {
    seq(CELLS, x requires 0 <= x < CELLS => NextCell(g, y, x))
  }

  /** A board with nothing alive stays that way. */
  lemma DeadIsFixedPoint()
    ensures NextGen(Dead()) == Dead()
  {
    var d := Dead();
    var n := NextGen(d);
    forall y | 0 <= y < CELLS
      ensures n[y] == d[y]
    {
      forall x | 0 <= x < CELLS
        ensures n[y][x] == d[y][x]
      {
        assert Neighbours(d, y, x) == 0;
      }
    }
  }

  /**
   A live cell whose wrapped neighbours are all dead dies, and a dead one stays
   dead: what cannot see a live neighbour cannot be alive next.
   */
  lemma Isolated(g: Grid, y: int, x: int)
    requires IsBoard(g)
    requires 0 <= y < CELLS && 0 <= x < CELLS
    requires Neighbours(g, y, x) == 0
    ensures !NextGen(g)[y][x]
  {
  }

  /** The 3x3 block of wrapped cells centred on (y, x), centre included, counted from three rows of three. */
  function Block(g: Grid, y: int, x: int): nat
    requires IsBoard(g)
  {
    Triple(g, Wrap(y - 1), x) + Triple(g, Wrap(y), x) + Triple(g, Wrap(y + 1), x)
  }

  function Triple(g: Grid, row: int, x: int): nat
    requires IsBoard(g)
    requires 0 <= row < CELLS
  {
    Bit(g[row][Wrap(x - 1)]) + Bit(g[row][Wrap(x)]) + Bit(g[row][Wrap(x + 1)])
  }

  /** The neighbour count is the wrapped 3x3 block around the cell without the cell itself. */
  lemma NeighboursAreBlockWithoutCentre(g: Grid, y: int, x: int)
    requires IsBoard(g)
    requires 0 <= y < CELLS && 0 <= x < CELLS
    ensures Neighbours(g, y, x) == Block(g, y, x) - Bit(g[y][x])
  {
    WrapOnBoard(y);
    WrapOnBoard(x);
  }

  /** Away from the edges, the neighbours are the plain offsets by one. */
  lemma InteriorNeighbours(g: Grid, y: int, x: int)
    requires IsBoard(g)
    requires 0 < y < CELLS - 1 && 0 < x < CELLS - 1
    ensures Neighbours(g, y, x) ==
      Bit(g[y - 1][x - 1]) + Bit(g[y - 1][x]) + Bit(g[y - 1][x + 1])
      + Bit(g[y][x - 1]) + Bit(g[y][x + 1])
      + Bit(g[y + 1][x - 1]) + Bit(g[y + 1][x]) + Bit(g[y + 1][x + 1])
  {
    WrapOnBoard(y - 1);
    WrapOnBoard(y + 1);
    WrapOnBoard(x - 1);
    WrapOnBoard(x + 1);
  }

  /**
   The corner (0, 0) sees the last row and the last column as its neighbours.
   The other corners and the edges follow from NeighboursShift, which relates
   the count at every cell to the count at any other by rolling the torus.
   */
  lemma CornerNeighbours(g: Grid)
    requires IsBoard(g)
    ensures Neighbours(g, 0, 0) ==
      Bit(g[CELLS - 1][CELLS - 1]) + Bit(g[CELLS - 1][0]) + Bit(g[CELLS - 1][1])
      + Bit(g[0][CELLS - 1]) + Bit(g[0][1])
      + Bit(g[1][CELLS - 1]) + Bit(g[1][0]) + Bit(g[1][1])
  {
    WrapEdges();
    WrapOnBoard(1);
  }

  /** g rolled around the torus: the cell at (y, x) is the one at (y + dy, x + dx) in g. */
  function Shift(g: Grid, dy: int, dx: int): (r: Grid)
    requires IsBoard(g)
    ensures IsBoard(r)
  {
    seq(CELLS, y requires 0 <= y < CELLS =>
      seq(CELLS, x requires 0 <= x < CELLS => g[Wrap(y + dy)][Wrap(x + dx)]))
  }

  /** Reading the rolled board at wrapped coordinates reads g that far further on. */
  lemma ShiftAt(g: Grid, dy: int, dx: int, a: int, b: int)
    requires IsBoard(g)
    ensures Shift(g, dy, dx)[Wrap(a)][Wrap(b)] == g[Wrap(a + dy)][Wrap(b + dx)]
  {
    WrapThenAdd(a, dy);
    WrapThenAdd(b, dx);
  }

  /** Rolling the board moves each neighbourhood along with its cell. */
  lemma NeighboursShift(g: Grid, dy: int, dx: int, y: int, x: int)
    requires IsBoard(g)
    requires 0 <= y < CELLS && 0 <= x < CELLS
    ensures Neighbours(Shift(g, dy, dx), y, x) == Neighbours(g, Wrap(y + dy), Wrap(x + dx))
  {
    var s := Shift(g, dy, dx);
    var ty, tx := Wrap(y + dy), Wrap(x + dx);
    WrapOnBoard(y);
    WrapOnBoard(x);
    WrapThenAdd(y + dy, -1);
    WrapThenAdd(y + dy, 1);
    WrapThenAdd(x + dx, -1);
    WrapThenAdd(x + dx, 1);
    NeighboursVia(s, y, x, Wrap(y - 1), Wrap(y + 1), Wrap(x - 1), Wrap(x + 1));
    NeighboursVia(g, ty, tx, Wrap(y + dy - 1), Wrap(y + dy + 1), Wrap(x + dx - 1), Wrap(x + dx + 1));
    ShiftAt(g, dy, dx, y - 1, x - 1);
    ShiftAt(g, dy, dx, y - 1, x);
    ShiftAt(g, dy, dx, y - 1, x + 1);
    ShiftAt(g, dy, dx, y, x - 1);
    ShiftAt(g, dy, dx, y, x + 1);
    ShiftAt(g, dy, dx, y + 1, x - 1);
    ShiftAt(g, dy, dx, y + 1, x);
    ShiftAt(g, dy, dx, y + 1, x + 1);
  }

  /**
   The torus has no distinguished edge: rolling the board and then stepping
   gives the same board as stepping and then rolling.
   */
  lemma NextGenCommutesWithShift(g: Grid, dy: int, dx: int)
    requires IsBoard(g)
    ensures NextGen(Shift(g, dy, dx)) == Shift(NextGen(g), dy, dx)
  {
    var a := NextGen(Shift(g, dy, dx));
    var b := Shift(NextGen(g), dy, dx);
    forall y | 0 <= y < CELLS
      ensures a[y] == b[y]
    {
      forall x | 0 <= x < CELLS
        ensures a[y][x] == b[y][x]
      {
        NeighboursShift(g, dy, dx, y, x);
      }
    }
  }

  /** The board whose live cells are exactly the (row, column) pairs in live. */
  function FromCells(live: set<(int, int)>): (g: Grid)
    ensures IsBoard(g)
  {
    seq(CELLS, y => seq(CELLS, x => (y, x) in live))
  }

  /** Making one more cell alive on a FromCells board adds it to the live set. */
  lemma FromCellsAdd(live: set<(int, int)>, y: int, x: int)
    requires 0 <= y < CELLS && 0 <= x < CELLS
    ensures FromCells(live)[y := FromCells(live)[y][x := true]] == FromCells(live + {(y, x)})
  {
    var a := FromCells(live)[y := FromCells(live)[y][x := true]];
    var b := FromCells(live + {(y, x)});
    forall i | 0 <= i < CELLS
      ensures a[i] == b[i]
    {
    }
  }

  /** The dead board is the one with no live cells. */
  lemma DeadIsFromNoCells()
    ensures Dead() == FromCells({})
  {
    forall i | 0 <= i < CELLS
      ensures Dead()[i] == FromCells({})[i]
    {
    }
  }

  /**
   The walker the game starts with. toggle(x, y) writes row y, column x, so
   the five toggles at the end of life.ts make these (row, column) cells alive.
   */
  function Walker(): Grid
  {
    FromCells({(1, 0), (2, 1), (0, 2), (1, 2), (2, 2)})
  }
}
