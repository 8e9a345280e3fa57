/**
 * The board generator (`SudokuGenerator`): it seeds the boxes on the main
 * diagonal with distinct values, completes the board by deterministic
 * backtracking, and then empties a fixed number of filled cells. Every step
 * works in place on one two-dimensional array. The random draws of the source
 * are nondeterministic choices here (`:|`).
 */
module Generator {
  import opened Board

  /**
   * `generate`: a fresh board of the given size. When the solve fails, the
   * diagonal-seeded board comes back without holes and without any error.
   */
  method Generate(size: int) returns (board: array2<int>)
    requires ValidSize(size)
    ensures fresh(board) && Generated(board, size)
  {
    board := new int[size, size]((i, j) => 0);
    FillDiagonal(board, size);
    var solved := SolveSudoku(board, size);
    if solved {
      FullBoardCount(board, size);
      RemoveNumbers(board, size);
    }
  }

  /** `fillDiagonal`: fill the boxes starting at (k * b, k * b) and leave every other cell empty. */
  method FillDiagonal(a: array2<int>, size: int)
    requires ValidSize(size) && HasSize(a, size)
    requires forall i, j :: 0 <= i < size && 0 <= j < size ==> a[i, j] == 0
    modifies a
    ensures CellsInRange(a, size) && DiagonalSeeded(a, BoxSize(size)) && NoDuplicates(a, BoxSize(size))
  {
    var sqrt := BoxSize(size);
    var box := 0;
    while box < size
      invariant 0 <= box <= size && box in DiagonalStarts(size)
      invariant CellsInRange(a, size) && BoxesDistinct(a, sqrt)
      invariant SeededUpTo(a, sqrt, box)
      decreases size - box
    {
      SeedDiagonalBox(a, size, box);
      NextBoxStart(box, size);
      box := box + sqrt;
    }
    DiagonalBoxesAreIndependent(a, size);
  }

  /** One round of `fillDiagonal`'s loop: fill the diagonal box at (box, box). */
  method SeedDiagonalBox(a: array2<int>, size: int, box: int)
    requires ValidSize(size) && HasSize(a, size) && box in DiagonalStarts(size) && box < size
    requires CellsInRange(a, size) && BoxesDistinct(a, BoxSize(size)) && SeededUpTo(a, BoxSize(size), box)
    modifies a
    ensures CellsInRange(a, size) && BoxesDistinct(a, BoxSize(size)) && SeededUpTo(a, BoxSize(size), box + BoxSize(size))
  {
    var sqrt := BoxSize(size);
    label seeding:
    FillBox(a, box, box, size);
    assert forall i, j :: 0 <= i < size && 0 <= j < size && !InSquare(i, j, box, box, sqrt) ==>
      0 <= a[i, j] <= size && (a[i, j] != 0 <==> i < box && BoxStart(i, sqrt) == BoxStart(j, sqrt)) by {
      forall i, j | 0 <= i < size && 0 <= j < size && !InSquare(i, j, box, box, sqrt)
        ensures a[i, j] == old@seeding(a[i, j])
      {
      }
    }
    assert forall i1, j1, i2, j2 ::
      (0 <= i1 < box && 0 <= j1 < size && 0 <= i2 < box && 0 <= j2 < size && (i1 != i2 || j1 != j2) &&
       BoxStart(i1, sqrt) == BoxStart(i2, sqrt) && BoxStart(j1, sqrt) == BoxStart(j2, sqrt) && a[i1, j1] != 0)
      ==> a[i1, j1] != a[i2, j2] by {
      forall i, j | 0 <= i < box && 0 <= j < size
        ensures a[i, j] == old@seeding(a[i, j])
      {
      }
    }
    DiagonalBoxAdded(a, size, box);
  }

  /** The cells filled so far are exactly those of the diagonal boxes above row `limit`. */
  ghost predicate SeededUpTo(a: array2<int>, b: int, limit: int)
    requires b > 0
    reads a
  {
    forall i, j :: 0 <= i < a.Length0 && 0 <= j < a.Length1 ==>
      (a[i, j] != 0 <==> i < limit && BoxStart(i, b) == BoxStart(j, b))
  }

  /** Cell (i, j) lies in the b-by-b square whose top-left cell is (row, col). */
  ghost predicate InSquare(i: int, j: int, row: int, col: int, b: int) {
    row <= i < row + b && col <= j < col + b
  }

  /**
   * Filling the diagonal box at (s, s) with distinct values, on a board seeded
   * up to row s, extends the seeding by one box and keeps every box free of
   * repeats.
   */
  lemma DiagonalBoxAdded(a: array2<int>, size: int, s: int)
    requires ValidSize(size) && HasSize(a, size)
    requires s in DiagonalStarts(size) && s < size
    requires forall i, j :: 0 <= i < size && 0 <= j < size && !InSquare(i, j, s, s, BoxSize(size)) ==>
      0 <= a[i, j] <= size && (a[i, j] != 0 <==> i < s && BoxStart(i, BoxSize(size)) == BoxStart(j, BoxSize(size)))
    requires forall i1, j1, i2, j2 ::
      (0 <= i1 < s && 0 <= j1 < size && 0 <= i2 < s && 0 <= j2 < size && (i1 != i2 || j1 != j2) &&
       BoxStart(i1, BoxSize(size)) == BoxStart(i2, BoxSize(size)) &&
       BoxStart(j1, BoxSize(size)) == BoxStart(j2, BoxSize(size)) && a[i1, j1] != 0)
      ==> a[i1, j1] != a[i2, j2]
    requires forall i, j :: InSquare(i, j, s, s, BoxSize(size)) ==> 1 <= a[i, j] <= size
    requires forall i1, j1, i2, j2 ::
      (InSquare(i1, j1, s, s, BoxSize(size)) && InSquare(i2, j2, s, s, BoxSize(size)) && (i1 != i2 || j1 != j2))
      ==> a[i1, j1] != a[i2, j2]
    ensures CellsInRange(a, size) && BoxesDistinct(a, BoxSize(size))
    ensures SeededUpTo(a, BoxSize(size), s + BoxSize(size))
  {
    var b := BoxSize(size);
    NextBoxStart(s, size);
    forall i, j | 0 <= i < size && 0 <= j < size
      ensures a[i, j] != 0 <==> i < s + b && BoxStart(i, b) == BoxStart(j, b)
    {
      SameBoxIff(i, s, size);
      SameBoxIff(j, s, size);
      WithinOwnBox(i, b);
    }
    forall i1, j1, i2, j2 |
      0 <= i1 < size && 0 <= j1 < size && 0 <= i2 < size && 0 <= j2 < size &&
      (i1 != i2 || j1 != j2) && BoxStart(i1, b) == BoxStart(i2, b) && BoxStart(j1, b) == BoxStart(j2, b) &&
      a[i1, j1] != 0
      ensures a[i1, j1] != a[i2, j2]
    {
      SameBoxIff(i1, s, size);
      SameBoxIff(j1, s, size);
      SameBoxIff(i2, s, size);
      SameBoxIff(j2, s, size);
      WithinOwnBox(i1, b);
      WithinOwnBox(i2, b);
    }
  }

  /** Cell (p, q) of the box at (row, col) comes before cell (i, j) of that box in row-major order. */
  ghost predicate FilledBefore(p: int, q: int, row: int, col: int, b: int, i: int, j: int) {
    row <= p < row + b && col <= q < col + b && (p < row + i || (p == row + i && q < col + j))
  }

  /**
   * `fillBox`: write each cell of the b-by-b box at (row, col), row by row, with
   * a value of 1..size not yet in the box. The source redraws at random until
   * `isValidInBox` accepts; here the accepted value is chosen directly. One
   * always exists because the box has exactly `size` cells.
   */
  method FillBox(a: array2<int>, row: int, col: int, size: int)
    requires ValidSize(size) && HasSize(a, size)
    requires 0 <= row && row + BoxSize(size) <= size && 0 <= col && col + BoxSize(size) <= size
    requires forall i, j :: InSquare(i, j, row, col, BoxSize(size)) ==> a[i, j] == 0
    modifies a
    ensures forall i, j :: 0 <= i < size && 0 <= j < size && !InSquare(i, j, row, col, BoxSize(size)) ==>
      a[i, j] == old(a[i, j])
    ensures forall i, j :: InSquare(i, j, row, col, BoxSize(size)) ==> 1 <= a[i, j] <= size
    ensures forall i1, j1, i2, j2 ::
      (InSquare(i1, j1, row, col, BoxSize(size)) && InSquare(i2, j2, row, col, BoxSize(size)) && (i1 != i2 || j1 != j2))
      ==> a[i1, j1] != a[i2, j2]
  {
    var sqrt := BoxSize(size);
    // The cell holding each value written so far.
    ghost var cellOf: map<int, (int, int)> := map[];
    for i := 0 to sqrt
      invariant forall p, q :: 0 <= p < size && 0 <= q < size && !FilledBefore(p, q, row, col, sqrt, i, 0) ==>
        a[p, q] == old(a[p, q])
      invariant forall p, q :: FilledBefore(p, q, row, col, sqrt, i, 0) ==>
        1 <= a[p, q] <= size && a[p, q] in cellOf && cellOf[a[p, q]] == (p, q)
      invariant forall v :: v in cellOf ==> 1 <= v <= size
      invariant |cellOf| <= i * sqrt
    {
      cellOf := FillBoxRow(a, row, col, size, i, cellOf);
    }
    forall i1, j1, i2, j2 |
      InSquare(i1, j1, row, col, sqrt) && InSquare(i2, j2, row, col, sqrt) && (i1 != i2 || j1 != j2)
      ensures a[i1, j1] != a[i2, j2]
    {
      assert FilledBefore(i1, j1, row, col, sqrt, sqrt, 0) && FilledBefore(i2, j2, row, col, sqrt, sqrt, 0);
    }
  }

  /**
   * The inner loop of `fillBox`: fill row i of the box, left to right. `cellOf`
   * records the cell of each value written so far and grows by one per cell.
   */
  method FillBoxRow(a: array2<int>, row: int, col: int, size: int, i: int, ghost cellOf: map<int, (int, int)>)
    returns (ghost cells: map<int, (int, int)>)
    requires ValidSize(size) && HasSize(a, size)
    requires 0 <= row && row + BoxSize(size) <= size && 0 <= col && col + BoxSize(size) <= size
    requires 0 <= i < BoxSize(size)
    requires forall p, q :: InSquare(p, q, row, col, BoxSize(size)) && !FilledBefore(p, q, row, col, BoxSize(size), i, 0) ==>
      a[p, q] == 0
    requires forall p, q :: FilledBefore(p, q, row, col, BoxSize(size), i, 0) ==>
      1 <= a[p, q] <= size && a[p, q] in cellOf && cellOf[a[p, q]] == (p, q)
    requires forall v :: v in cellOf ==> 1 <= v <= size
    requires |cellOf| <= i * BoxSize(size)
    modifies a
    ensures forall p, q :: 0 <= p < size && 0 <= q < size && !(p == row + i && col <= q < col + BoxSize(size)) ==>
      a[p, q] == old(a[p, q])
    ensures forall p, q :: FilledBefore(p, q, row, col, BoxSize(size), i + 1, 0) ==>
      1 <= a[p, q] <= size && a[p, q] in cells && cells[a[p, q]] == (p, q)
    ensures forall v :: v in cells ==> 1 <= v <= size
    ensures |cells| <= (i + 1) * BoxSize(size)
  {
    var sqrt := BoxSize(size);
    cells := cellOf;
    for j := 0 to sqrt
      invariant forall p, q :: 0 <= p < size && 0 <= q < size && !(p == row + i && col <= q < col + j) ==>
        a[p, q] == old(a[p, q])
      invariant forall p, q :: FilledBefore(p, q, row, col, sqrt, i, j) ==>
        1 <= a[p, q] <= size && a[p, q] in cells && cells[a[p, q]] == (p, q)
      invariant forall v :: v in cells ==> 1 <= v <= size
      invariant |cells| <= i * sqrt + j
    {
      BoxRankBelowSize(i, j, size);
      FreeValueExists(cells.Keys, size);
      ghost var w :| 1 <= w <= size && w !in cells;
      forall p, q | InSquare(p, q, row, col, sqrt)
        ensures a[p, q] != w
      {
        if !FilledBefore(p, q, row, col, sqrt, i, j) {
          assert a[p, q] == old(a[p, q]);
        }
      }
      assert !InBox(a, row, col, sqrt, w);
      var num :| 1 <= num <= size && !InBox(a, row, col, sqrt, num);
      ghost var prev := cells;
      label write:
      a[row + i, col + j] := num;
      cells := cells[num := (row + i, col + j)];
      forall p, q | FilledBefore(p, q, row, col, sqrt, i, j + 1)
        ensures 1 <= a[p, q] <= size && a[p, q] in cells && cells[a[p, q]] == (p, q)
      {
        if p != row + i || q != col + j {
          assert FilledBefore(p, q, row, col, sqrt, i, j);
          var v := old@write(a[p, q]);
          assert InSquare(p, q, row, col, sqrt) && !old@write(InBox(a, row, col, sqrt, num));
          assert v != num;
          assert a[p, q] == v && v in prev && prev[v] == (p, q);
        }
      }
    }
  }

  /**
   * `isValidInBox`: whether `num` is absent from the box of side `sqrt` at
   * (startRow, startCol). `FillBoxRow` does not call it: its draw is stated
   * directly by the condition `!InBox`, which this method is proved to compute.
   */
  method IsValidInBox(a: array2<int>, startRow: int, startCol: int, num: int, sqrt: int) returns (valid: bool)
    requires 0 <= sqrt && 0 <= startRow && startRow + sqrt <= a.Length0 && 0 <= startCol && startCol + sqrt <= a.Length1
    ensures valid <==> !InBox(a, startRow, startCol, sqrt, num)
  {
    for i := 0 to sqrt
      invariant forall p, q :: startRow <= p < startRow + i && startCol <= q < startCol + sqrt ==> a[p, q] != num
    {
      var r := startRow + i;
      for j := 0 to sqrt
        invariant forall p, q :: startRow <= p < startRow + i && startCol <= q < startCol + sqrt ==> a[p, q] != num
        invariant forall q :: startCol <= q < startCol + j ==> a[r, q] != num
      {
        if a[r, startCol + j] == num {
          return false;
        }
      }
    }
    return true;
  }

  /**
   * `removeNumbers`: empty exactly `HolesToPunch(size)` filled cells. The source
   * draws cells at random and skips empty ones; here a filled cell is chosen
   * directly. The loop only ends when enough filled cells exist, hence the
   * precondition.
   */
  method RemoveNumbers(a: array2<int>, size: int)
    requires ValidSize(size) && HasSize(a, size)
    requires CellsInRange(a, size) && NoDuplicates(a, BoxSize(size))
    requires |NonZeroCells(a)| >= HolesToPunch(size)
    modifies a
    ensures CellsInRange(a, size) && NoDuplicates(a, BoxSize(size))
    ensures |ZeroCells(a)| == |old(ZeroCells(a))| + HolesToPunch(size)
    ensures forall i, j :: 0 <= i < size && 0 <= j < size ==>
      a[i, j] == old(a[i, j]) || (old(a[i, j]) != 0 && a[i, j] == 0)
  {
    var numbersToRemove := if size == 9 then 40 else (size * size) / 2;
    while numbersToRemove > 0
      invariant 0 <= numbersToRemove <= HolesToPunch(size)
      invariant |ZeroCells(a)| == |old(ZeroCells(a))| + (HolesToPunch(size) - numbersToRemove)
      invariant |NonZeroCells(a)| >= numbersToRemove
      invariant forall i, j :: 0 <= i < size && 0 <= j < size ==>
        a[i, j] == old(a[i, j]) || (old(a[i, j]) != 0 && a[i, j] == 0)
      decreases numbersToRemove
    {
      ghost var c :| c in NonZeroCells(a);
      var row, col :| 0 <= row < size && 0 <= col < size && a[row, col] != 0;
      label clear:
      a[row, col] := 0;
      SingleWriteCells@clear(Placement(a, row, col, 0));
      numbersToRemove := numbersToRemove - 1;
    }
    ZeroingKeepsRules(a);
  }

  /**
   * `solveSudoku`: complete the board by backtracking on the first empty cell
   * in row-major order. A board with no empty cell is solved at once; on
   * success no cell is empty; on failure the board is as it was. Cells
   * filled on entry are never changed.
   */
  method SolveSudoku(a: array2<int>, size: int) returns (solved: bool)
    requires ValidSize(size) && HasSize(a, size)
    requires CellsInRange(a, size) && NoDuplicates(a, BoxSize(size))
    modifies a
    ensures CellsInRange(a, size) && NoDuplicates(a, BoxSize(size))
    ensures forall i, j :: 0 <= i < size && 0 <= j < size && old(a[i, j]) != 0 ==> a[i, j] == old(a[i, j])
    ensures solved ==> Full(a)
    ensures old(Full(a)) ==> solved
    ensures !solved ==> forall i, j :: 0 <= i < size && 0 <= j < size ==> a[i, j] == old(a[i, j])
    decreases ZeroCells(a), 1
  {
    var isEmpty, row, col := FindFirstEmpty(a);
    if !isEmpty {
      return true;
    }
    solved := TryValues(a, size, row, col);
  }

  /**
   * The loop of `solveSudoku` at the empty cell (row, col): try 1..size in
   * ascending order, and after each safe placement solve the rest; undo the
   * placement when that fails. Each recursive call sees one empty cell fewer.
   */
  method TryValues(a: array2<int>, size: int, row: int, col: int) returns (solved: bool)
    requires ValidSize(size) && HasSize(a, size)
    requires CellsInRange(a, size) && NoDuplicates(a, BoxSize(size))
    requires 0 <= row < size && 0 <= col < size && a[row, col] == 0
    modifies a
    ensures CellsInRange(a, size) && NoDuplicates(a, BoxSize(size))
    ensures forall i, j :: 0 <= i < size && 0 <= j < size && old(a[i, j]) != 0 ==> a[i, j] == old(a[i, j])
    ensures solved ==> Full(a)
    ensures !solved ==> forall i, j :: 0 <= i < size && 0 <= j < size ==> a[i, j] == old(a[i, j])
    decreases ZeroCells(a), 0
  {
    for num := 1 to size + 1
      invariant forall i, j :: 0 <= i < size && 0 <= j < size ==> a[i, j] == old(a[i, j])
    {
      var safe := IsSafe(a, row, col, num, size);
      if safe {
        a[row, col] := num;
        PlacementKeepsRules(Placement(a, row, col, num));
        SingleWriteCells(Placement(a, row, col, num));
        solved := SolveSudoku(a, size);
        if solved {
          return true;
        }
        a[row, col] := 0;
      }
    }
    return false;
  }

  /**
   * The search at the start of `solveSudoku`: the first empty cell in
   * row-major order, or (-1, -1) when the board is full.
   */
  method FindFirstEmpty(a: array2<int>) returns (isEmpty: bool, row: int, col: int)
    ensures isEmpty ==> 0 <= row < a.Length0 && 0 <= col < a.Length1 && a[row, col] == 0
    ensures isEmpty ==> forall i, j :: 0 <= i < a.Length0 && 0 <= j < a.Length1 && (i < row || (i == row && j < col)) ==> a[i, j] != 0
    ensures !isEmpty ==> row == -1 && col == -1 && Full(a)
  {
    row, col, isEmpty := -1, -1, false;
    for i := 0 to a.Length0
      invariant forall p, q :: 0 <= p < i && 0 <= q < a.Length1 ==> a[p, q] != 0
    {
      for j := 0 to a.Length1
        invariant forall q :: 0 <= q < j ==> a[i, q] != 0
      {
        if a[i, j] == 0 {
          return true, i, j;
        }
      }
    }
  }

  /** `isSafe`: `num` is absent from the row, the column and the box of (row, col). */
  method IsSafe(a: array2<int>, row: int, col: int, num: int, size: int) returns (safe: bool)
    requires ValidSize(size) && HasSize(a, size) && 0 <= row < size && 0 <= col < size
    ensures safe <==> (!InRow(a, row, num) && !InCol(a, col, num) &&
      !InBox(a, BoxStart(row, BoxSize(size)), BoxStart(col, BoxSize(size)), BoxSize(size), num))
  {
    var inRow := UsedInRow(a, row, num, size);
    if inRow {
      return false;
    }
    var inCol := UsedInCol(a, col, num, size);
    if inCol {
      return false;
    }
    var sqrt := BoxSize(size);
    BoxStartBounds(row, size);
    BoxStartBounds(col, size);
    var inBox := UsedInBox(a, row - row % sqrt, col - col % sqrt, num, size);
    return !inBox;
  }

  /** `usedInRow`: whether `num` occurs in the row. */
  method UsedInRow(a: array2<int>, row: int, num: int, size: int) returns (used: bool)
    requires HasSize(a, size) && 0 <= row < size
    ensures used <==> InRow(a, row, num)
  {
    for col := 0 to size
      invariant forall j :: 0 <= j < col ==> a[row, j] != num
    {
      if a[row, col] == num {
        return true;
      }
    }
    return false;
  }

  /** `usedInCol`: whether `num` occurs in the column. */
  method UsedInCol(a: array2<int>, col: int, num: int, size: int) returns (used: bool)
    requires HasSize(a, size) && 0 <= col < size
    ensures used <==> InCol(a, col, num)
  {
    for row := 0 to size
      invariant forall i :: 0 <= i < row ==> a[i, col] != num
    {
      if a[row, col] == num {
        return true;
      }
    }
    return false;
  }

  /** `usedInBox`: whether `num` occurs in the box of side sqrt(size) at (boxStartRow, boxStartCol). */
  method UsedInBox(a: array2<int>, boxStartRow: int, boxStartCol: int, num: int, size: int) returns (used: bool)
    requires ValidSize(size) && HasSize(a, size)
    requires 0 <= boxStartRow && boxStartRow + BoxSize(size) <= size
    requires 0 <= boxStartCol && boxStartCol + BoxSize(size) <= size
    ensures used <==> InBox(a, boxStartRow, boxStartCol, BoxSize(size), num)
  {
    var sqrt := BoxSize(size);
    for i := 0 to sqrt
      invariant forall p, q :: boxStartRow <= p < boxStartRow + i && boxStartCol <= q < boxStartCol + sqrt ==> a[p, q] != num
    {
      var r := boxStartRow + i;
      for j := 0 to sqrt
        invariant forall p, q :: boxStartRow <= p < boxStartRow + i && boxStartCol <= q < boxStartCol + sqrt ==> a[p, q] != num
        invariant forall q :: boxStartCol <= q < boxStartCol + j ==> a[r, q] != num
      {
        if a[r, boxStartCol + j] == num {
          return true;
        }
      }
    }
    return false;
  }
}
