/**
 * The read-only checks over the board: duplicate detection in a list,
 * the placement check of one cell against its row, column and 3x3 box,
 * the row-and-column board check, the full-board check and the search
 * for the first empty cell. Each is a scan like the original and is
 * proved equal to a predicate over the board's value.
 */
module Constraints {
  import opened Grid

  datatype Option<T> = None | Some(value: T)

  // ----- duplicate detection -------------------------------------------

  /** No two non-empty entries are equal; empty entries are ignored. */
  predicate UniqueList(list: seq<Content>) {
    forall i, j :: 0 <= i < j < |list| && list[i] != 0 ==> list[i] != list[j]
  }

  /** The scan with a set of the non-empty values seen so far. */
  method CheckIsUniqueList(list: seq<Content>) returns (unique: bool)
    ensures unique <==> UniqueList(list)
    ensures (forall i :: 0 <= i < |list| ==> list[i] == 0) ==> unique
  {
    var seen: set<Content> := {};
    for k := 0 to |list|
      invariant seen == set i | 0 <= i < k && list[i] != 0 :: list[i]
      invariant forall i, j :: 0 <= i < j < k && list[i] != 0 ==> list[i] != list[j]
    {
      var value := list[k];
      if value == 0 {
        continue;
      }
      if value in seen {
        var i :| 0 <= i < k && list[i] != 0 && list[i] == value;
        assert list[i] == list[k];
        return false;
      }
      seen := seen + {value};
    }
    return true;
  }

  // ----- placement check ----------------------------------------------------

  /** (r, c) and (y, x) lie in the same 3x3 box. */
  predicate SameBox(r: int, c: int, y: int, x: int) {
    r / 3 == y / 3 && c / 3 == x / 3
  }

  /** (r, c) is another cell of the row, the column or the box of (y, x). */
  predicate Peer(r: int, c: int, y: int, x: int) {
    (r, c) != (y, x) && (r == y || c == x || SameBox(r, c, y, x))
  }

  /** No peer of (y, x) holds content d. */
  ghost predicate NoConflict(b: Grid, y: int, x: int, d: Content)
    requires InRange(y, x)
  {
    forall r, c :: InRange(r, c) && Peer(r, c, y, x) ==> b[r][c].content != d
  }

  /** First row (or column) of the box holding row (or column) i. */
  function BoxStart(i: int): int {
    i / 3 * 3
  }

  /**
   * Compares d with the other cells of row y, of column x and of the box
   * whose origin is (BoxStart(y), BoxStart(x)). The comparison is plain
   * equality, so an empty d conflicts with any other empty peer.
   */
  method CheckIsValidPosition(g: array2<Cell>, y: int, x: int, d: Content) returns (valid: bool)
    requires IsBoard(g) && InRange(y, x)
    ensures valid <==> NoConflict(Snapshot(g), y, x, d)
  {
    ghost var b := Snapshot(g);
    for i := 0 to 9
      invariant forall j :: 0 <= j < i ==> (j != x ==> g[y, j].content != d) && (j != y ==> g[j, x].content != d)
    {
      if i != x && g[y, i].content == d {
        assert Peer(y, i, y, x) && b[y][i].content == d;
        return false;
      }
      if i != y && g[i, x].content == d {
        assert Peer(i, x, y, x) && b[i][x].content == d;
        return false;
      }
    }
    var boxStartRow := BoxStart(y);
    var boxStartCol := BoxStart(x);
    for row := boxStartRow to boxStartRow + 3
      invariant forall r, c :: boxStartRow <= r < row && boxStartCol <= c < boxStartCol + 3 && (r, c) != (y, x) ==> g[r, c].content != d
    {
      for col := boxStartCol to boxStartCol + 3
        invariant forall r, c :: boxStartRow <= r < row && boxStartCol <= c < boxStartCol + 3 && (r, c) != (y, x) ==> g[r, c].content != d
        invariant forall c :: boxStartCol <= c < col && (row, c) != (y, x) ==> g[row, c].content != d
      {
        if row == y && col == x {
          continue;
        }
        if g[row, col].content == d {
          assert Peer(row, col, y, x) && b[row][col].content == d;
          return false;
        }
      }
    }
    forall r, c | InRange(r, c) && Peer(r, c, y, x)
      ensures b[r][c].content != d
    {
      if r != y && c != x {
        assert boxStartRow <= r < boxStartRow + 3 && boxStartCol <= c < boxStartCol + 3;
      }
    }
    return true;
  }

  /** Every non-empty cell is free of conflicts with its peers. */
  ghost predicate ConflictFree(b: Grid) {
    forall y, x :: InRange(y, x) && b[y][x].content != 0 ==> NoConflict(b, y, x, b[y][x].content)
  }

  // ----- board check: rows and columns, no boxes -----------------------------

  function RowOf(b: Grid, r: int): (row: seq<Content>)
    requires 0 <= r < Rows
  {
    seq(Cols, c requires 0 <= c < Cols => b[r][c].content)
  }

  function ColOf(b: Grid, c: int): (col: seq<Content>)
    requires 0 <= c < Cols
  {
    seq(Rows, r requires 0 <= r < Rows => b[r][c].content)
  }

  /** What the board check accepts: every row and every column is a unique list. */
  predicate ValidBoard(b: Grid) {
    && (forall r :: 0 <= r < Rows ==> UniqueList(RowOf(b, r)))
    && (forall c :: 0 <= c < Cols ==> UniqueList(ColOf(b, c)))
  }

  /** No two different cells of one row or one column hold the same digit. */
  ghost predicate LinesConflictFree(b: Grid) {
    forall r, c, r2, c2 ::
      InRange(r, c) && InRange(r2, c2) && (r, c) != (r2, c2) && (r == r2 || c == c2) && b[r][c].content != 0
      ==> b[r][c].content != b[r2][c2].content
  }

  /**
   * Collects each row and each column into a list and passes it to
   * CheckIsUniqueList; it never looks at a box.
   */
  method CheckIsValidBoard(g: array2<Cell>) returns (valid: bool)
    requires IsBoard(g)
    ensures valid <==> ValidBoard(Snapshot(g))
  {
    ghost var b := Snapshot(g);
    var areColsValid := true;
    for row := 0 to Rows
      invariant areColsValid <==> forall r :: 0 <= r < row ==> UniqueList(RowOf(b, r))
    {
      var colList: seq<Content> := [];
      for col := 0 to Cols
        invariant colList == RowOf(b, row)[..col]
      {
        colList := colList + [g[row, col].content];
      }
      assert colList == RowOf(b, row);
      var unique := CheckIsUniqueList(colList);
      if !unique {
        areColsValid := false;
      }
    }
    var areRowsValid := true;
    for col := 0 to Cols
      invariant areRowsValid <==> forall c :: 0 <= c < col ==> UniqueList(ColOf(b, c))
    {
      var rowList: seq<Content> := [];
      for row := 0 to Rows
        invariant rowList == ColOf(b, col)[..row]
      {
        rowList := rowList + [g[row, col].content];
      }
      assert rowList == ColOf(b, col);
      var unique := CheckIsUniqueList(rowList);
      if !unique {
        areRowsValid := false;
      }
    }
    valid := areColsValid && areRowsValid;
  }

  /** The board check accepts exactly the boards whose rows and columns hold no repeated digit. */
  lemma ValidBoardMeaning(b: Grid)
    ensures ValidBoard(b) <==> LinesConflictFree(b)
  {
    if ValidBoard(b) {
      forall r, c, r2, c2 |
        InRange(r, c) && InRange(r2, c2) && (r, c) != (r2, c2) && (r == r2 || c == c2) && b[r][c].content != 0
        ensures b[r][c].content != b[r2][c2].content
      {
        if r == r2 {
          var row := RowOf(b, r);
          if c < c2 {
            assert row[c] != row[c2];
          } else {
            assert row[c2] != 0 ==> row[c2] != row[c];
          }
        } else {
          var col := ColOf(b, c);
          if r < r2 {
            assert col[r] != col[r2];
          } else {
            assert col[r2] != 0 ==> col[r2] != col[r];
          }
        }
      }
    }
    if LinesConflictFree(b) {
      forall r | 0 <= r < Rows
        ensures UniqueList(RowOf(b, r))
      {
        var row := RowOf(b, r);
        forall i, j | 0 <= i < j < |row| && row[i] != 0
          ensures row[i] != row[j]
        {
          assert b[r][i].content != b[r][j].content;
        }
      }
      forall c | 0 <= c < Cols
        ensures UniqueList(ColOf(b, c))
      {
        var col := ColOf(b, c);
        forall i, j | 0 <= i < j < |col| && col[i] != 0
          ensures col[i] != col[j]
        {
          assert b[i][c].content != b[j][c].content;
        }
      }
    }
  }

  /** A conflict-free board passes the board check. */
  lemma ConflictFreeIsValid(b: Grid)
    requires ConflictFree(b)
    ensures ValidBoard(b)
  {
  }

  // ----- full board -----------------------------------------------------------

  /** No cell is empty. */
  ghost predicate Full(b: Grid) {
    forall r, c :: InRange(r, c) ==> b[r][c].content != 0
  }

  method CheckIsFullBoard(g: array2<Cell>) returns (full: bool)
    requires IsBoard(g)
    ensures full <==> Full(Snapshot(g))
  {
    ghost var b := Snapshot(g);
    for row := 0 to Rows
      invariant forall r, c :: 0 <= r < row && 0 <= c < Cols ==> g[r, c].content != 0
    {
      for col := 0 to Cols
        invariant forall r, c :: 0 <= r < row && 0 <= c < Cols ==> g[r, c].content != 0
        invariant forall c :: 0 <= c < col ==> g[row, c].content != 0
      {
        if g[row, col].content == 0 {
          assert b[row][col].content == 0;
          return false;
        }
      }
    }
    return true;
  }

  // ----- first empty cell -------------------------------------------------------

  /** (r, c) is empty and every cell before it in row-major order is filled. */
  ghost predicate FirstEmpty(b: Grid, r: int, c: int) {
    && InRange(r, c)
    && b[r][c].content == 0
    && forall r2, c2 :: InRange(r2, c2) && (r2 < r || (r2 == r && c2 < c)) ==> b[r2][c2].content != 0
  }

  method FindEmpty(g: array2<Cell>) returns (empty: Option<(int, int)>)
    requires IsBoard(g)
    ensures empty.None? <==> Full(Snapshot(g))
    ensures empty.Some? ==> FirstEmpty(Snapshot(g), empty.value.0, empty.value.1)
  {
    ghost var b := Snapshot(g);
    for r := 0 to Rows
      invariant forall r2, c2 :: 0 <= r2 < r && 0 <= c2 < Cols ==> g[r2, c2].content != 0
    {
      for c := 0 to Cols
        invariant forall r2, c2 :: 0 <= r2 < r && 0 <= c2 < Cols ==> g[r2, c2].content != 0
        invariant forall c2 :: 0 <= c2 < c ==> g[r, c2].content != 0
      {
        if g[r, c].content == 0 {
          assert b[r][c].content == 0;
          return Some((r, c));
        }
      }
    }
    return None;
  }
}
