# web-sudoku engine, modelled in Dafny

This project models the engine of the web-sudoku game in `script.js`. The
engine works on a 9x9 board of cells. Each cell knows its coordinates, its
content (empty or a digit) and whether it belongs to the generated puzzle.
The model covers these parts:

- the board initialisation loop;
- the randomized backtracking solver `fillBoard`, with `findEmpty` and the
  Fisher-Yates `shuffle`;
- the placement check `checkIsValidPosition` (row, column and 3x3 box);
- the board check `checkIsValidBoard` (rows and columns only) and its
  duplicate scan `checkIsUniqueList`;
- the full check `checkIsFullBoard`;
- the puzzle carving `removeNumbersForPuzzle`;
- the board part of the click handler `onCellClick`;
- the start of a game: initialise, fill, carve 36 clues.

Modules:

- `Grid` (grid.dfy): the board as an `array2<Cell>`, its value snapshot
  `Grid` and the initialisation loop.
- `Constraints` (constraints.dfy): the read-only scans. Each is a method
  with loops like the original. Each is proved equal to a predicate over
  the board's value.
- `Shuffle` (shuffle.dfy): the shuffle and facts about distinct lists.
- `Solutions` (solutions.dfy): facts about complete boards. A full board
  without conflicts has each digit once per row, column and box. A solved
  board exists. The board check alone accepts a board with a box
  duplicate.
- `Solver` (solver.dfy): `fillBoard`, proved to terminate, to keep the
  filled cells, to restore the board exactly when it fails, and to fail
  only when no conflict-free completion exists.
- `Carver` (carver.dfy): the clue clamp and the carving loop.
- `Game` (game.dfy): the click rule, the win flag and the start of a game.

Representation choices:

- Content is `0` for the empty string `""` and `1..9` for the digit
  strings `"1"`..`"9"`. JavaScript truthiness of a content is `content != 0`.
- The global `board` that the checks read becomes an explicit parameter.
- `Math.random()` in `shuffle` becomes a nondeterministic choice of `j` in
  `[0, i]`. Every property holds whatever index the random source yields.
- `onCellClick(cell, el)` is modelled on the cell's coordinates `(y, x)`.
  The selected tool is a `Content`, and `0` stands for "no tool selected".
  The handler's result says what the page would show: nothing, a cleared
  cell, or a placed digit with its "invalid" flag and whether `endGame`
  would be called.
- `checkIsValidPosition` compares contents with `===`. Two empty contents
  compare equal, so an empty content would conflict with any empty peer.
  Every caller passes a digit, so the model adds no precondition on the
  content.
- The game start ignores the result of `fillBoard`, as the original does.
  The model proves that this result is always true there.
- The win flag relies on the board check, which looks only at rows and
  columns (`Solutions.BoardCheckIgnoresBoxes`), while a placement writes
  its digit even when it conflicts (`Game.PlacementIgnoresConflicts`).
  The win flag therefore guarantees full rows and columns without repeats,
  not box uniqueness (`Game.WinCondition`).

## Model

| member | source | states |
|---|---|---|
| Grid.InitBoard | script.js:38-48 | every cell (y, x) of the new board is `{x, y, content: "", generated: true}` |
| Constraints.CheckIsUniqueList | script.js:261-271 | returns false iff two non-empty entries are equal; an all-empty list gives true |
| Constraints.CheckIsValidPosition | script.js:187-207 | returns true iff no other cell of the row, the column or the box from `(floor(y/3)*3, floor(x/3)*3)` holds the same content |
| Constraints.CheckIsValidBoard | script.js:209-235 | returns true iff every row list and every column list passes the duplicate scan |
| Constraints.ValidBoardMeaning | script.js:209-235 | the board check accepts exactly the boards with no digit repeated in a row or a column |
| Constraints.ConflictFreeIsValid | script.js:209-235 | every board on which each digit passes the placement check also passes the board check |
| Constraints.CheckIsFullBoard | script.js:237-245 | returns true iff no cell is empty |
| Constraints.FindEmpty | script.js:100-107 | returns the first empty cell in row-major order, and none exactly when the full check holds |
| Shuffle.Shuffle | script.js:109-118 | the result is a permutation of the input: same length, same multiset |
| Shuffle.PermutationDistinct | script.js:109-118 | a shuffle of a list without repeats has no repeats |
| Solutions.SolvedHasEachDigitOnce | script.js:82-98 | a full board on which every digit passes the placement check has each digit 1..9 exactly once in every row, column and box |
| Solutions.PatternIsSolved | script.js:52 | a full conflict-free board exists |
| Solutions.BoardCheckIgnoresBoxes | script.js:209-235 | a full board passes the board check while its first box holds a digit twice |
| Solver.ShuffledDigits | script.js:87 | the shuffled digit list holds only digits and every digit 1..9 |
| Solver.FillShrinksEmpty | script.js:83-92 | writing a digit into the empty cell removes it from the empty cells; the recursion measure |
| Solver.WriteKeepsConflictFree | script.js:89-91 | a digit accepted by the placement check keeps a conflict-free board conflict-free |
| Solver.RejectedDigitHasNoSolution | script.js:89-90 | a digit the placement check rejects occurs at that cell in no completion of the board |
| Solver.FailedDigitHasNoSolution | script.js:91-93 | if the board with the digit written has no completion, no completion of the board holds that digit there |
| Solver.UndoRestores | script.js:91-93 | writing a digit into an empty cell and then `""` gives the board back |
| Solver.AllDigitsFailed | script.js:88-97 | when every digit 1..9 failed at the empty cell, the board has no completion |
| Solver.WriteContent | script.js:91-93 | only the content of (row, col) changes, and it becomes d |
| Solver.TryDigit | script.js:91-93 | the write, recursion and undo: on success the board is full and keeps its filled cells; on failure it is unchanged and no completion has that digit there |
| Solver.FillBoard | script.js:82-98 | terminates; changes only contents and keeps filled cells; true gives a full board, conflict-free if it was; false leaves the board unchanged and means no conflict-free completion exists |
| Carver.CluesToKeep | script.js:122 | the clue count clamped to [0, 81] |
| Carver.Cleared | script.js:136-137 | a cleared cell is empty, not generated, at the same coordinates |
| Carver.ClearCell | script.js:136-137 | only the chosen cell changes, and it is cleared |
| Carver.ListPositions | script.js:125-130 | the list of all positions in row-major order |
| Carver.RowMajorDistinct | script.js:125-130 | the position list has no repeats |
| Carver.AllCellsCount | script.js:121 | the board has 81 positions |
| Carver.RemoveNumbersForPuzzle | script.js:120-140 | clears exactly 81 - clamp(clues) distinct positions and changes no other cell |
| Carver.CarveKeepsOtherCells | script.js:134-139 | cleared cells get content `""` and `generated = false`; every other cell is kept |
| Carver.CarvedCluesCount | script.js:120-140 | from a board of generated cells, 81 minus the number of cleared cells stay generated |
| Carver.CarveKeepsConflictFree | script.js:134-139 | clearing cells of a conflict-free board leaves the givens conflict-free |
| Game.Click | script.js:144-160 | a click changes at most the content of the clicked cell |
| Game.OnCellClick | script.js:144-172 | the new board is the click rule; nothing happens without a tool or on a given; a filled cell is cleared; otherwise the digit is placed, flagged invalid iff it conflicts, and the game is won iff the board check and the full check hold |
| Game.ClickKeepsGivens | script.js:145 | a click never changes a generated cell nor the set of generated cells |
| Game.ClearIgnoresTool | script.js:147-154 | clearing a filled player cell gives the same board whatever digit the tool holds |
| Game.PlacementIgnoresConflicts | script.js:157-165 | the digit is written even when it conflicts, and then the board has a conflict |
| Game.ClickTwiceRestores | script.js:145-157 | clicking an empty player cell twice with any tools gives the board back |
| Game.WinCondition | script.js:169 | every solved board is a win, and every win is full with no repeated digit in a row or column |
| Game.BlankHasSolution | script.js:52 | the blank board has a conflict-free completion |
| Game.NewGame | script.js:38-53 | the solver never fails on the blank board; the new game has 36 givens, the givens are exactly the filled cells, they do not conflict, and the puzzle has a solution |

## Left out

- The page: `document.querySelector`, CSS custom properties, the rendering loop with its edge classes, `updateHighlightedCells`, `endGame` with `location.reload`, and `createElement`. They only present state. `OnCellClick` reports in its result what the page would show instead.
- The tool-selection handlers (script.js:15-35). They only set `selectedTool`, which the model takes as a parameter of `OnCellClick`.
- The element updates inside `onCellClick` (`innerText`, `classList`). Only the board transition and the two flags are modelled.
- Uniformity of the shuffle. `Math.random` is a nondeterministic index choice, so the model proves what holds for every random sequence and nothing about probabilities.
- Object identity of cells. The click handler captures a cell object; the model addresses it by its coordinates, which the initialisation loop makes equal.
- Shuffle.Shuffle: the original copies its input with a spread; in the model the input is a value, so "the caller's list is unchanged" holds by construction rather than by a proof.
- String contents. Contents are numbers 0..9; a tool text other than a single digit is not modelled.
