/**
 * The game itself: a new game fills the blank board with the solver and
 * carves a puzzle of CLUES givens out of it; a click on a cell with a
 * selected digit tool clears a filled player cell or writes the digit into
 * an empty one, and a placement that leaves a board passing the board
 * check and the full check wins.
 */
module Game {
  import opened Grid
  import opened Constraints
  import opened Solver
  import opened Carver
  import Solutions

  /** The number of givens a new game asks for. */
  const CLUES := 36

  /** What a click did, with the two flags the page shows after a placement. */
  datatype ClickResult = Ignored | Emptied | Placed(invalid: bool, won: bool)

  /**
   * The board after a click on (y, x) with tool selected (0 when no tool
   * is selected): nothing without a tool or on a given, a filled cell is
   * emptied whatever the tool, an empty cell receives the tool's digit.
   */
  function Click(b: Grid, y: int, x: int, tool: Content): (after: Grid)
    requires InRange(y, x)
    ensures forall r, c :: InRange(r, c) && (r, c) != (y, x) ==> after[r][c] == b[r][c]
    ensures after[y][x] == b[y][x].(content := after[y][x].content)
  {
    if tool == 0 || b[y][x].generated then b
    else
      var content := if b[y][x].content != 0 then 0 else tool;
      b[y := b[y][x := b[y][x].(content := content)]]
  }

  /** The board part of the click handler on the cell at (y, x). */
  method OnCellClick(g: array2<Cell>, y: int, x: int, selectedTool: Content) returns (result: ClickResult)
    requires IsBoard(g) && InRange(y, x)
    modifies g
    ensures Snapshot(g) == Click(old(Snapshot(g)), y, x, selectedTool)
    ensures result.Ignored? <==> selectedTool == 0 || old(g[y, x]).generated
    ensures result.Emptied? <==> selectedTool != 0 && !old(g[y, x]).generated && old(g[y, x]).content != 0
    ensures result.Placed? ==> (result.invalid <==> !NoConflict(Snapshot(g), y, x, selectedTool))
    ensures result.Placed? ==> (result.won <==> ValidBoard(Snapshot(g)) && Full(Snapshot(g)))
  {
    ghost var before := Snapshot(g);
    if selectedTool == 0 || g[y, x].generated {
      return Ignored;
    }
    if g[y, x].content != 0 {
      g[y, x] := g[y, x].(content := 0);
      GridEq(Snapshot(g), Click(before, y, x, selectedTool));
      return Emptied;
    }
    g[y, x] := g[y, x].(content := selectedTool);
    GridEq(Snapshot(g), Click(before, y, x, selectedTool));
    var valid := CheckIsValidPosition(g, y, x, selectedTool);
    var won := false;
    var boardValid := CheckIsValidBoard(g);
    if boardValid {
      won := CheckIsFullBoard(g);
    }
    return Placed(!valid, won);
  }

  /** A click never changes a given. */
  lemma ClickKeepsGivens(b: Grid, y: int, x: int, tool: Content)
    requires InRange(y, x)
    ensures forall r, c :: InRange(r, c) && b[r][c].generated ==> Click(b, y, x, tool)[r][c] == b[r][c]
    ensures GeneratedCells(Click(b, y, x, tool)) == GeneratedCells(b)
  {
  }

  /** Clearing a filled player cell does not depend on which digit the tool holds. */
  lemma ClearIgnoresTool(b: Grid, y: int, x: int, tool: Content, tool2: Content)
    requires InRange(y, x) && !b[y][x].generated && b[y][x].content != 0
    requires tool != 0 && tool2 != 0
    ensures Click(b, y, x, tool) == Click(b, y, x, tool2)
    ensures Click(b, y, x, tool)[y][x].content == 0
  {
  }

  /** A placement writes the tool's digit even when it conflicts with a peer. */
  lemma PlacementIgnoresConflicts(b: Grid, y: int, x: int, tool: Content)
    requires InRange(y, x) && !b[y][x].generated && b[y][x].content == 0 && tool != 0
    ensures Click(b, y, x, tool)[y][x].content == tool
    ensures !NoConflict(b, y, x, tool) ==> !ConflictFree(Click(b, y, x, tool))
  {
  }

  /** Clicking an empty player cell twice, with any tools, gives the board back. */
  lemma ClickTwiceRestores(b: Grid, y: int, x: int, tool: Content, tool2: Content)
    requires InRange(y, x) && !b[y][x].generated && b[y][x].content == 0
    requires tool != 0 && tool2 != 0
    ensures Click(Click(b, y, x, tool), y, x, tool2) == b
  {
    var after := Click(Click(b, y, x, tool), y, x, tool2);
    GridEq(after, b);
  }

  /** A solved board is a win, and every win is full with no repeat in a row or column. */
  lemma WinCondition(b: Grid)
    ensures Full(b) && ConflictFree(b) ==> ValidBoard(b) && Full(b)
    ensures ValidBoard(b) && Full(b) ==> LinesConflictFree(b)
  {
    if Full(b) && ConflictFree(b) {
      ConflictFreeIsValid(b);
    }
    ValidBoardMeaning(b);
  }

  /** The blank board has a solution: the shifted-rows pattern. */
  lemma BlankHasSolution()
    ensures IsSolutionOf(Solutions.PatternGrid(), BlankGrid())
  {
    Solutions.PatternIsSolved();
  }

  /**
   * The start of a game: the initialisation loop, the solver on the blank
   * board and the carving of CLUES givens. The solver cannot fail here,
   * the givens are exactly the filled cells, there are CLUES of them, they
   * do not conflict, and the filled board is a solution of the puzzle.
   */
  method NewGame() returns (g: array2<Cell>)
    ensures fresh(g) && IsBoard(g)
    ensures forall r, c :: InRange(r, c) ==> g[r, c].x == c && g[r, c].y == r
    ensures forall r, c :: InRange(r, c) ==> (g[r, c].generated <==> g[r, c].content != 0)
    ensures |GeneratedCells(Snapshot(g))| == CLUES
    ensures ConflictFree(Snapshot(g))
    ensures exists s: Grid :: IsSolutionOf(s, Snapshot(g))
  {
    g := InitBoard();
    var solved := FillBoard(g);
    BlankHasSolution();
    assert solved;
    ghost var solution := Snapshot(g);
    assert ConflictFree(solution);
    ghost var removed := RemoveNumbersForPuzzle(g, CLUES);
    ghost var puzzle := Snapshot(g);
    CarveKeepsOtherCells(solution, removed);
    CarvedCluesCount(solution, removed);
    CarveKeepsConflictFree(solution, removed);
    assert IsSolutionOf(solution, puzzle);
  }
}
