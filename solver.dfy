/**
 * The randomized backtracking solver. It fills the first empty cell with
 * each digit of a shuffled 1..9 that passes the placement check, recurses,
 * and undoes the write when the recursion fails.
 */
module Solver {
  import opened Grid
  import opened Constraints
  import Shuffle

  /** s agrees with every filled cell of b. */
  ghost predicate Extends(s: Grid, b: Grid) {
    forall r, c :: InRange(r, c) && b[r][c].content != 0 ==> s[r][c].content == b[r][c].content
  }

  /** s is a conflict-free completion of b. */
  ghost predicate IsSolutionOf(s: Grid, b: Grid) {
    Full(s) && ConflictFree(s) && Extends(s, b)
  }

  /** No completion of b holds d at (row, col). */
  ghost predicate NoSolutionWith(b: Grid, row: int, col: int, d: Content)
    requires InRange(row, col)
  {
    forall s: Grid :: IsSolutionOf(s, b) ==> s[row][col].content != d
  }

  /** a and b differ at most in the contents of their cells. */
  ghost predicate OnlyContentsDiffer(a: Grid, b: Grid) {
    forall r, c :: InRange(r, c) ==> b[r][c] == a[r][c].(content := b[r][c].content)
  }

  /** p is b with content d written at (row, col). */
  ghost predicate Written(b: Grid, p: Grid, row: int, col: int, d: Content) {
    && InRange(row, col)
    && p[row][col] == b[row][col].(content := d)
    && forall r, c :: InRange(r, c) && (r, c) != (row, col) ==> p[r][c] == b[r][c]
  }

  /** The positions of the empty cells; the solver's measure of progress. */
  ghost function EmptyCells(b: Grid): set<(int, int)> {
    set r, c | 0 <= r < Rows && 0 <= c < Cols && b[r][c].content == 0 :: (r, c)
  }

  /** Filling an empty cell removes it from the empty cells and adds none. */
  lemma FillShrinksEmpty(b: Grid, p: Grid, row: int, col: int, d: Content)
    requires Written(b, p, row, col, d) && b[row][col].content == 0 && d != 0
    ensures EmptyCells(p) < EmptyCells(b)
  {
    assert (row, col) in EmptyCells(b);
    assert EmptyCells(p) == EmptyCells(b) - {(row, col)};
  }

  /** A digit accepted by the placement check keeps a conflict-free board conflict-free. */
  lemma WriteKeepsConflictFree(b: Grid, p: Grid, row: int, col: int, d: Content)
    requires Written(b, p, row, col, d) && ConflictFree(b) && NoConflict(b, row, col, d)
    ensures ConflictFree(p)
  {
  }

  /** A digit rejected by the placement check occurs in no completion at (row, col). */
  lemma RejectedDigitHasNoSolution(b: Grid, row: int, col: int, d: Content)
    requires InRange(row, col) && d != 0 && !NoConflict(b, row, col, d)
    ensures NoSolutionWith(b, row, col, d)
  {
  }

  /** If the board with d written has no completion, no completion of b holds d there. */
  lemma FailedDigitHasNoSolution(b: Grid, p: Grid, row: int, col: int, d: Content)
    requires Written(b, p, row, col, d) && d != 0
    requires forall s: Grid :: !IsSolutionOf(s, p)
    ensures NoSolutionWith(b, row, col, d)
  {
    forall s: Grid | IsSolutionOf(s, b)
      ensures s[row][col].content != d
    {
      if s[row][col].content == d {
        assert Extends(s, p);
        assert IsSolutionOf(s, p);
      }
    }
  }

  /** When no digit can stand at an empty cell, the board has no completion. */
  lemma NoDigitNoSolution(b: Grid, row: int, col: int, s: Grid)
    requires InRange(row, col)
    requires forall d: Content :: d != 0 ==> NoSolutionWith(b, row, col, d)
    ensures !IsSolutionOf(s, b)
  {
    var v := s[row][col].content;
    if v != 0 {
      assert NoSolutionWith(b, row, col, v);
    }
  }

  /** A shuffle of 1..9 holds nine digits and every digit among them. */
  lemma ShuffledDigits(candidates: seq<Content>, digits: seq<Content>)
    requires |candidates| == 9 && forall i :: 0 <= i < 9 ==> candidates[i] == i + 1
    requires multiset(digits) == multiset(candidates)
    ensures forall j :: 0 <= j < |digits| ==> digits[j] != 0
    ensures forall d: Content :: d != 0 ==> d in digits
  {
    forall j | 0 <= j < |digits|
      ensures digits[j] != 0
    {
      assert digits[j] in multiset(candidates);
      assert digits[j] in candidates;
    }
    forall d: Content | d != 0
      ensures d in digits
    {
      assert candidates[d - 1] == d;
      assert d in multiset(candidates);
    }
  }

  /** When every digit 1..9 has failed at an empty cell, the board has no completion. */
  lemma AllDigitsFailed(b: Grid, row: int, col: int, digits: seq<Content>)
    requires InRange(row, col)
    requires forall d: Content :: d != 0 ==> d in digits
    requires forall j :: 0 <= j < |digits| ==> NoSolutionWith(b, row, col, digits[j])
    ensures forall s: Grid :: !IsSolutionOf(s, b)
  {
    forall d: Content | d != 0
      ensures NoSolutionWith(b, row, col, d)
    {
      assert d in digits;
      var j :| 0 <= j < |digits| && digits[j] == d;
    }
    forall s: Grid
      ensures !IsSolutionOf(s, b)
    {
      NoDigitNoSolution(b, row, col, s);
    }
  }

  /** What a successful recursive call on the written board gives for the board before the write. */
  lemma SolvedAfterWrite(b: Grid, p: Grid, f: Grid, row: int, col: int, d: Content)
    requires Written(b, p, row, col, d) && b[row][col].content == 0 && NoConflict(b, row, col, d)
    requires OnlyContentsDiffer(p, f) && Extends(f, p) && Full(f)
    requires ConflictFree(p) ==> ConflictFree(f)
    ensures OnlyContentsDiffer(b, f) && Extends(f, b)
    ensures ConflictFree(b) ==> ConflictFree(f)
  {
  }

  /** The tried-digits invariant of the digit loop, extended by one digit. */
  lemma OneMoreTried(b: Grid, row: int, col: int, digits: seq<Content>, k: int)
    requires InRange(row, col) && 0 <= k < |digits|
    requires forall j :: 0 <= j < k ==> NoSolutionWith(b, row, col, digits[j])
    requires NoSolutionWith(b, row, col, digits[k])
    ensures forall j :: 0 <= j < k + 1 ==> NoSolutionWith(b, row, col, digits[j])
  {
  }

  /** A board differs from itself in nothing and extends itself. */
  lemma SameBoard(b: Grid)
    ensures OnlyContentsDiffer(b, b) && Extends(b, b)
  {
  }

  /** Writing d and then the empty content back restores a cell that was empty. */
  lemma UndoRestores(b: Grid, p: Grid, u: Grid, row: int, col: int, d: Content)
    requires Written(b, p, row, col, d) && Written(p, u, row, col, 0) && b[row][col].content == 0
    ensures u == b
  {
    GridEq(u, b);
  }

  /** The statement `board[row][col].content = d`. */
  method WriteContent(g: array2<Cell>, row: int, col: int, d: Content)
    requires IsBoard(g) && InRange(row, col)
    modifies g
    ensures Written(old(Snapshot(g)), Snapshot(g), row, col, d)
  {
    g[row, col] := g[row, col].(content := d);
  }

  /**
   * One step of the digit loop (script.js:91-93): write d into the empty
   * cell, recurse, and on failure write the empty content back.
   */
  method TryDigit(g: array2<Cell>, row: int, col: int, d: Content) returns (done: bool)
    requires IsBoard(g) && InRange(row, col) && d != 0
    requires Snapshot(g)[row][col].content == 0 && NoConflict(Snapshot(g), row, col, d)
    modifies g
    decreases EmptyCells(Snapshot(g)), 0
    ensures OnlyContentsDiffer(old(Snapshot(g)), Snapshot(g))
    ensures Extends(Snapshot(g), old(Snapshot(g)))
    ensures done ==> Full(Snapshot(g))
    ensures done && ConflictFree(old(Snapshot(g))) ==> ConflictFree(Snapshot(g))
    ensures !done ==> Snapshot(g) == old(Snapshot(g))
    ensures !done ==> NoSolutionWith(old(Snapshot(g)), row, col, d)
  {
    ghost var entry := Snapshot(g);
    WriteContent(g, row, col, d);
    ghost var placed := Snapshot(g);
    FillShrinksEmpty(entry, placed, row, col, d);
    done := FillBoard(g);
    if done {
      SolvedAfterWrite(entry, placed, Snapshot(g), row, col, d);
      return;
    }
    WriteContent(g, row, col, 0);
    UndoRestores(entry, placed, Snapshot(g), row, col, d);
    FailedDigitHasNoSolution(entry, placed, row, col, d);
  }

  /**
   * Returns true with the board completed, or false with the board exactly
   * as it was; false only when the board has no conflict-free completion.
   */
  method FillBoard(g: array2<Cell>) returns (solved: bool)
    requires IsBoard(g)
    modifies g
    decreases EmptyCells(Snapshot(g)), 1
    ensures OnlyContentsDiffer(old(Snapshot(g)), Snapshot(g))
    ensures Extends(Snapshot(g), old(Snapshot(g)))
    ensures solved ==> Full(Snapshot(g))
    ensures solved && ConflictFree(old(Snapshot(g))) ==> ConflictFree(Snapshot(g))
    ensures !solved ==> Snapshot(g) == old(Snapshot(g))
    ensures !solved ==> forall s: Grid :: !IsSolutionOf(s, old(Snapshot(g)))
  {
    ghost var entry := Snapshot(g);
    var empty := FindEmpty(g);
    if empty.None? {
      SameBoard(entry);
      return true;
    }
    var (row, col) := empty.value;
    var candidates: seq<Content> := seq(9, i => i + 1);
    var digits := Shuffle.Shuffle(candidates);
    ShuffledDigits(candidates, digits);
    for k := 0 to |digits|
      invariant Snapshot(g) == entry
      invariant forall j :: 0 <= j < k ==> NoSolutionWith(entry, row, col, digits[j])
    {
      var d := digits[k];
      var ok := CheckIsValidPosition(g, row, col, d);
      if ok {
        var done := TryDigit(g, row, col, d);
        if done {
          return true;
        }
      } else {
        RejectedDigitHasNoSolution(entry, row, col, d);
      }
      OneMoreTried(entry, row, col, digits, k);
    }
    SameBoard(entry);
    AllDigitsFailed(entry, row, col, digits);
    return false;
  }
}
