/**
 * The board of the game: a 9x9 array of cells, each knowing its own
 * coordinates, its content and whether it belongs to the generated puzzle.
 * Content is a number: 0 stands for the empty string "" and 1..9 for the
 * digit strings "1".."9".
 */
module Grid {

  const Rows := 9
  const Cols := 9
  const TotalCells := Rows * Cols

  /** 0 is the empty cell, 1..9 a digit. */
  type Content = c: int | 0 <= c <= 9

  datatype Cell = Cell(x: int, y: int, content: Content, generated: bool)

  /** A value snapshot of the board: 9 rows of 9 cells. */
  type Grid = b: seq<seq<Cell>> | |b| == Rows && forall r :: 0 <= r < Rows ==> |b[r]| == Cols
    witness BlankGrid()

  predicate InRange(r: int, c: int) {
    0 <= r < Rows && 0 <= c < Cols
  }

  predicate IsBoard(g: array2<Cell>) {
    g.Length0 == Rows && g.Length1 == Cols
  }

  /** The board built by the initialisation loop: every cell empty and generated. */
  function BlankGrid(): (b: seq<seq<Cell>>)
  {
    seq(Rows, r => seq(Cols, c => Cell(c, r, 0, true)))
  }

  /** The value currently held by the board. */
  function Snapshot(g: array2<Cell>): Grid
    requires IsBoard(g)
    reads g
  {
    seq(Rows, r requires 0 <= r < Rows reads g => seq(Cols, c requires 0 <= c < Cols reads g => g[r, c]))
  }

  /** Two grids that agree cell by cell are equal. */
  lemma GridEq(a: Grid, b: Grid)
    requires forall r, c :: InRange(r, c) ==> a[r][c] == b[r][c]
    ensures a == b
  {
    forall r | 0 <= r < Rows
      ensures a[r] == b[r]
    {
      assert forall c :: 0 <= c < Cols ==> a[r][c] == b[r][c];
    }
  }

  /** The board at its initialisation: the nested loop over rows and columns. */
  method InitBoard() returns (g: array2<Cell>)
    ensures fresh(g) && IsBoard(g)
    ensures forall r, c :: InRange(r, c) ==> g[r, c] == Cell(c, r, 0, true)
    ensures Snapshot(g) == BlankGrid()
  {
    g := new Cell[Rows, Cols]((r, c) => Cell(0, 0, 0, false));
    for y := 0 to Rows
      invariant forall r, c :: 0 <= r < y && 0 <= c < Cols ==> g[r, c] == Cell(c, r, 0, true)
    {
      for x := 0 to Cols
        invariant forall r, c :: 0 <= r < y && 0 <= c < Cols ==> g[r, c] == Cell(c, r, 0, true)
        invariant forall c :: 0 <= c < x ==> g[y, c] == Cell(c, y, 0, true)
      {
        g[y, x] := Cell(x, y, 0, true);
      }
    }
    GridEq(Snapshot(g), BlankGrid());
  }

  /** The set of all 81 positions (row, column). */
  function AllCells(): set<(int, int)>
  {
    set r, c | 0 <= r < Rows && 0 <= c < Cols :: (r, c)
  }

  /** The 81 positions in row-major order, as the carving step lists them. */
  function RowMajor(): seq<(int, int)>
  {
    seq(TotalCells, i => (i / Cols, i % Cols))
  }
}
