/**
 * Turning a solved board into a puzzle: the clue count is clamped to
 * [0, 81], the 81 positions are listed row by row and shuffled, and the
 * first 81 - clamp positions of the shuffled list are cleared and marked
 * as not generated.
 */
module Carver {
  import opened Grid
  import opened Constraints
  import Shuffle

  /** The clue count clamped to [0, TotalCells]: `max(0, min(clues, totalCells))`. */
  function CluesToKeep(clues: int): (keep: int)
    ensures 0 <= keep <= TotalCells
    ensures 0 <= clues <= TotalCells ==> keep == clues
    ensures clues < 0 ==> keep == 0
    ensures clues > TotalCells ==> keep == TotalCells
  {
    var atMost := if clues < TotalCells then clues else TotalCells;
    if 0 < atMost then atMost else 0
  }

  /** A cleared cell: empty content, no longer part of the generated puzzle. */
  function Cleared(cell: Cell): (cleared: Cell)
    ensures cleared.content == 0 && !cleared.generated
    ensures cleared.x == cell.x && cleared.y == cell.y
  {
    cell.(content := 0, generated := false)
  }

  /** The cell at (r, c) once the positions in removed are cleared. */
  function CarvedCell(b: Grid, removed: set<(int, int)>, r: int, c: int): Cell
    requires InRange(r, c)
  {
    if (r, c) in removed then Cleared(b[r][c]) else b[r][c]
  }

  /** b with every position in removed cleared. */
  function Carve(b: Grid, removed: set<(int, int)>): Grid
  {
    seq(Rows, r requires 0 <= r < Rows => seq(Cols, c requires 0 <= c < Cols => CarvedCell(b, removed, r, c)))
  }

  /** The statements `board[y][x].content = ""` and `board[y][x].generated = false`. */
  method ClearCell(g: array2<Cell>, y: int, x: int)
    requires IsBoard(g) && InRange(y, x)
    modifies g
    ensures g[y, x] == Cleared(old(g[y, x]))
    ensures forall r, c :: InRange(r, c) && (r, c) != (y, x) ==> g[r, c] == old(g[r, c])
  {
    g[y, x] := g[y, x].(content := 0);
    g[y, x] := g[y, x].(generated := false);
  }

  /** The positions of the cells that belong to the generated puzzle. */
  ghost function GeneratedCells(b: Grid): set<(int, int)>
  {
    set r, c | 0 <= r < Rows && 0 <= c < Cols && b[r][c].generated :: (r, c)
  }

  /** The row-major list holds no position twice. */
  lemma RowMajorDistinct()
    ensures Shuffle.Distinct(RowMajor())
  {
  }

  /** The row-major list holds exactly the positions of the board. */
  lemma RowMajorCoversBoard()
    ensures Shuffle.Elems(RowMajor()) == AllCells()
  {
    var cells := RowMajor();
    forall p | p in AllCells()
      ensures p in cells
    {
      var (r, c) := p;
      var i := Cols * r + c;
      assert i / Cols == r && i % Cols == c;
      assert cells[i] == p;
    }
  }

  /** The board has TotalCells positions. */
  lemma AllCellsCount()
    ensures |AllCells()| == TotalCells
  {
    RowMajorDistinct();
    Shuffle.DistinctCard(RowMajor());
    RowMajorCoversBoard();
  }

  /** The loop that lists every position, row by row. */
  method ListPositions() returns (cells: seq<(int, int)>)
    ensures cells == RowMajor()
  {
    cells := [];
    for y := 0 to Rows
      invariant |cells| == y * Cols
      invariant forall i :: 0 <= i < |cells| ==> cells[i] == (i / Cols, i % Cols)
    {
      for x := 0 to Cols
        invariant |cells| == y * Cols + x
        invariant forall i :: 0 <= i < |cells| ==> cells[i] == (i / Cols, i % Cols)
      {
        assert (y * Cols + x) / Cols == y && (y * Cols + x) % Cols == x;
        cells := cells + [(y, x)];
      }
    }
  }

  /**
   * Clears the first TotalCells - CluesToKeep(clues) positions of a shuffled
   * list of all positions; removed is the set of cleared positions.
   */
  method RemoveNumbersForPuzzle(g: array2<Cell>, clues: int) returns (ghost removed: set<(int, int)>)
    requires IsBoard(g)
    modifies g
    ensures removed <= AllCells()
    ensures |removed| == TotalCells - CluesToKeep(clues)
    ensures Snapshot(g) == Carve(old(Snapshot(g)), removed)
  {
    ghost var entry := Snapshot(g);
    var totalCells := Rows * Cols;
    var cluesToKeep := CluesToKeep(clues);
    var toRemove := totalCells - cluesToKeep;
    var cells := ListPositions();
    var shuffled := Shuffle.Shuffle(cells);
    RowMajorDistinct();
    Shuffle.PermutationDistinct(cells, shuffled);
    removed := {};
    for i := 0 to |shuffled|
      invariant 0 <= toRemove == totalCells - cluesToKeep - i
      invariant removed == set j | 0 <= j < i :: shuffled[j]
      invariant |removed| == i
      invariant removed <= AllCells()
      invariant forall r, c :: InRange(r, c) ==> g[r, c] == CarvedCell(entry, removed, r, c)
    {
      if toRemove == 0 {
        break;
      }
      var (y, x) := shuffled[i];
      assert shuffled[i] in multiset(cells);
      assert InRange(y, x);
      NextRemoved(shuffled, i, removed);
      ClearCell(g, y, x);
      toRemove := toRemove - 1;
      removed := removed + {(y, x)};
    }
    GridEq(Snapshot(g), Carve(entry, removed));
  }

  /** The set of the first i + 1 entries of a distinct list grows by the new entry. */
  lemma NextRemoved(shuffled: seq<(int, int)>, i: int, removed: set<(int, int)>)
    requires Shuffle.Distinct(shuffled) && 0 <= i < |shuffled|
    requires removed == set j | 0 <= j < i :: shuffled[j]
    requires |removed| == i
    ensures shuffled[i] !in removed
    ensures removed + {shuffled[i]} == set j | 0 <= j < i + 1 :: shuffled[j]
    ensures |removed + {shuffled[i]}| == i + 1
  {
  }

  /** Carving changes the removed positions, clearing them, and no other cell. */
  lemma CarveKeepsOtherCells(b: Grid, removed: set<(int, int)>)
    ensures forall r, c :: InRange(r, c) && (r, c) !in removed ==> Carve(b, removed)[r][c] == b[r][c]
    ensures forall r, c :: InRange(r, c) && (r, c) in removed ==>
      Carve(b, removed)[r][c].content == 0 && !Carve(b, removed)[r][c].generated
  {
  }

  /** From a board whose cells are all generated, carving leaves the other positions generated. */
  lemma CarvedGeneratedCells(b: Grid, removed: set<(int, int)>)
    requires forall r, c :: InRange(r, c) ==> b[r][c].generated
    ensures GeneratedCells(Carve(b, removed)) == AllCells() - removed
  {
  }

  /**
   * From a board whose cells are all generated, carving removed leaves
   * exactly TotalCells - |removed| generated cells.
   */
  lemma CarvedCluesCount(b: Grid, removed: set<(int, int)>)
    requires forall r, c :: InRange(r, c) ==> b[r][c].generated
    requires removed <= AllCells()
    ensures |GeneratedCells(Carve(b, removed))| == TotalCells - |removed|
  {
    CarvedGeneratedCells(b, removed);
    AllCellsCount();
    assert AllCells() == (AllCells() - removed) + removed;
  }

  /** Clearing cells never introduces a conflict. */
  lemma CarveKeepsConflictFree(b: Grid, removed: set<(int, int)>)
    requires ConflictFree(b)
    ensures ConflictFree(Carve(b, removed))
  {
  }
}
