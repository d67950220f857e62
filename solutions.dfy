/**
 * Facts about complete boards: a full conflict-free board is a Sudoku
 * solution (each digit once per row, column and box), a solution of the
 * empty board exists, and the row-and-column board check alone accepts a
 * full board that repeats a digit inside a box.
 */
module Solutions {
  import opened Grid
  import opened Constraints
  import Shuffle

  /** Each digit 1..9 occurs exactly once and no entry is empty. */
  ghost predicate EachDigitOnce(s: seq<Content>) {
    && (forall i :: 0 <= i < |s| ==> s[i] != 0)
    && forall d: Content :: d != 0 ==> multiset(s)[d] == 1
  }

  /** The nine contents of the box in box-row br and box-column bc, row by row. */
  function BoxOf(b: Grid, br: int, bc: int): (box: seq<Content>)
    requires 0 <= br < 3 && 0 <= bc < 3
  {
    seq(9, i requires 0 <= i < 9 => b[3 * br + i / 3][3 * bc + i % 3].content)
  }

  /** A subset as large as its superset is the superset. */
  lemma SubsetOfSameSize<T>(a: set<T>, b: set<T>)
    requires a <= b && |a| == |b|
    ensures a == b
  {
    var missing := b - a;
    assert b == a + missing && a * missing == {};
    assert |missing| == 0;
  }

  /** Nine distinct nonzero digits include every digit 1..9. */
  lemma NineDistinctCoverDigits(s: seq<Content>)
    requires |s| == 9 && (forall i :: 0 <= i < 9 ==> s[i] != 0) && Shuffle.Distinct(s)
    ensures forall d: Content :: d != 0 ==> d in s
  {
    var digits: set<Content> := {1, 2, 3, 4, 5, 6, 7, 8, 9};
    Shuffle.DistinctCard(s);
    var present := Shuffle.Elems(s);
    assert |digits| == 9;
    SubsetOfSameSize(present, digits);
    forall d: Content | d != 0
      ensures d in s
    {
      assert d in digits;
    }
  }

  /** Nine distinct digits are the digits 1..9, each once. */
  lemma LineOfNineDistinct(s: seq<Content>)
    requires |s| == 9 && (forall i :: 0 <= i < 9 ==> s[i] != 0) && Shuffle.Distinct(s)
    ensures EachDigitOnce(s)
  {
    NineDistinctCoverDigits(s);
    forall d: Content | d != 0
      ensures multiset(s)[d] == 1
    {
      assert d in s;
      assert d in multiset(s);
      Shuffle.DistinctMultiplicity(s, d);
    }
  }

  /** A full board without conflicts has each digit once in every row. */
  lemma RowsHaveEachDigitOnce(b: Grid, r: int)
    requires Full(b) && ConflictFree(b) && 0 <= r < Rows
    ensures EachDigitOnce(RowOf(b, r))
  {
    var s := RowOf(b, r);
    forall i, j | 0 <= i < j < 9
      ensures s[i] != s[j]
    {
      assert Peer(r, j, r, i);
    }
    LineOfNineDistinct(s);
  }

  /** A full board without conflicts has each digit once in every column. */
  lemma ColumnsHaveEachDigitOnce(b: Grid, c: int)
    requires Full(b) && ConflictFree(b) && 0 <= c < Cols
    ensures EachDigitOnce(ColOf(b, c))
  {
    var s := ColOf(b, c);
    forall i, j | 0 <= i < j < 9
      ensures s[i] != s[j]
    {
      assert Peer(j, c, i, c);
    }
    LineOfNineDistinct(s);
  }

  /** Cells i and j of one box are two different peers. */
  lemma BoxCellsArePeers(br: int, bc: int, i: int, j: int)
    requires 0 <= br < 3 && 0 <= bc < 3 && 0 <= i < j < 9
    ensures Peer(3 * br + j / 3, 3 * bc + j % 3, 3 * br + i / 3, 3 * bc + i % 3)
  {
  }

  /** A full board without conflicts has each digit once in every box. */
  lemma BoxesHaveEachDigitOnce(b: Grid, br: int, bc: int)
    requires Full(b) && ConflictFree(b) && 0 <= br < 3 && 0 <= bc < 3
    ensures EachDigitOnce(BoxOf(b, br, bc))
  {
    var s := BoxOf(b, br, bc);
    forall i, j | 0 <= i < j < 9
      ensures s[i] != s[j]
    {
      BoxCellsArePeers(br, bc, i, j);
    }
    LineOfNineDistinct(s);
  }

  /** A full board without conflicts has each digit once in every row, column and box. */
  lemma SolvedHasEachDigitOnce(b: Grid)
    requires Full(b) && ConflictFree(b)
    ensures forall r :: 0 <= r < Rows ==> EachDigitOnce(RowOf(b, r))
    ensures forall c :: 0 <= c < Cols ==> EachDigitOnce(ColOf(b, c))
    ensures forall br, bc :: 0 <= br < 3 && 0 <= bc < 3 ==> EachDigitOnce(BoxOf(b, br, bc))
  {
    forall r | 0 <= r < Rows
      ensures EachDigitOnce(RowOf(b, r))
    {
      RowsHaveEachDigitOnce(b, r);
    }
    forall c | 0 <= c < Cols
      ensures EachDigitOnce(ColOf(b, c))
    {
      ColumnsHaveEachDigitOnce(b, c);
    }
    forall br, bc | 0 <= br < 3 && 0 <= bc < 3
      ensures EachDigitOnce(BoxOf(b, br, bc))
    {
      BoxesHaveEachDigitOnce(b, br, bc);
    }
  }

  // ----- a solution of the empty board ----------------------------------------

  /** Adding two different offsets in 0..8 to k gives different residues mod 9. */
  lemma ShiftDistinct(k: int, a: int, a2: int)
    requires 0 <= a < 9 && 0 <= a2 < 9 && a != a2
    ensures (k + a) % 9 != (k + a2) % 9
  {
  }

  /** The digit of the classic shifted-rows Sudoku pattern at (r, c). */
  function PatternDigit(r: int, c: int): Content {
    (3 * (r % 3) + r / 3 + c) % 9 + 1
  }

  function PatternGrid(): Grid {
    seq(Rows, r => seq(Cols, c => Cell(c, r, PatternDigit(r, c), true)))
  }

  /** The pattern grid is a full board without conflicts. */
  lemma PatternIsSolved()
    ensures Full(PatternGrid()) && ConflictFree(PatternGrid())
  {
    var p := PatternGrid();
    forall y, x | InRange(y, x)
      ensures NoConflict(p, y, x, p[y][x].content)
    {
      forall r, c | InRange(r, c) && Peer(r, c, y, x)
        ensures p[r][c].content != p[y][x].content
      {
        if r == y {
          ShiftDistinct(3 * (r % 3) + r / 3, c, x);
        } else if c == x {
          ShiftDistinct(c, 3 * (r % 3) + r / 3, 3 * (y % 3) + y / 3);
        } else {
          var a, bt := r / 3, c / 3;
          assert c == 3 * bt + c % 3 && x == 3 * bt + x % 3;
          assert r == 3 * a + r % 3 && y == 3 * a + y % 3;
          assert (r % 3, c % 3) != (y % 3, x % 3);
          ShiftDistinct(a + 3 * bt, 3 * (r % 3) + c % 3, 3 * (y % 3) + x % 3);
          assert 3 * (r % 3) + r / 3 + c == (a + 3 * bt) + (3 * (r % 3) + c % 3);
          assert 3 * (y % 3) + y / 3 + x == (a + 3 * bt) + (3 * (y % 3) + x % 3);
        }
      }
    }
  }

  // ----- the board check ignores boxes ------------------------------------------

  /** The cyclic Latin square: row r is 1..9 rotated by r. */
  function LatinGrid(): Grid {
    seq(Rows, r => seq(Cols, c => Cell(c, r, (r + c) % 9 + 1, true)))
  }

  /** No row and no column of the Latin square repeats a digit. */
  lemma LatinLinesConflictFree()
    ensures LinesConflictFree(LatinGrid())
  {
    var l := LatinGrid();
    forall r, c, r2, c2 |
      InRange(r, c) && InRange(r2, c2) && (r, c) != (r2, c2) && (r == r2 || c == c2) && l[r][c].content != 0
      ensures l[r][c].content != l[r2][c2].content
    {
      if r == r2 {
        ShiftDistinct(r, c, c2);
      } else {
        ShiftDistinct(c, r, r2);
      }
    }
  }

  /**
   * The board check accepts a full board whose first box holds the digit 2
   * twice (at (0, 1) and (1, 0)), so the win condition, which uses only the
   * board check and the full check, does not establish box uniqueness.
   */
  lemma BoardCheckIgnoresBoxes()
    ensures Full(LatinGrid()) && ValidBoard(LatinGrid()) && !ConflictFree(LatinGrid())
  {
    var l := LatinGrid();
    LatinLinesConflictFree();
    ValidBoardMeaning(l);
    assert Peer(1, 0, 0, 1) && l[1][0].content == l[0][1].content;
  }
}
