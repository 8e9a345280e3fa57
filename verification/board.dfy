/**
 * The Sudoku board: a square `int` grid of side 4, 9 or 16 in which 0 marks an
 * empty cell and 1..size are the values. A board is well formed when no nonzero
 * value repeats in a row, a column or a box of side sqrt(size). These predicates
 * are shared by the game state and the board generator, which both hold the
 * board as a mutable two-dimensional array.
 */
module Board {

  /** The board sizes the system uses; each is a perfect square. */
  predicate ValidSize(n: int) {
    n == 4 || n == 9 || n == 16
  }

  /** `(int) Math.sqrt(size)` for the accepted sizes: the side of a box. */
  function BoxSize(n: int): (b: int)
    requires ValidSize(n)
    ensures 2 <= b && b * b == n
  {
    if n == 4 then 2 else if n == 9 then 3 else 4
  }

  /** First row (or column) of the box that holds row (or column) `x`. */
  function BoxStart(x: int, b: int): int
    requires b > 0
  {
    x - x % b
  }

  /** How many filled cells the generator empties: 40 on a 9x9 board, half the cells otherwise. */
  function HolesToPunch(n: int): (h: int)
    requires ValidSize(n)
    ensures 0 < h < n * n
  {
    if n == 9 then 40 else n * n / 2
  }

  ghost predicate HasSize(a: array2<int>, n: int) {
    a.Length0 == n && a.Length1 == n
  }

  /** Every cell holds 0 (empty) or a value in 1..n. */
  ghost predicate CellsInRange(a: array2<int>, n: int)
    reads a
  {
    forall i, j :: 0 <= i < a.Length0 && 0 <= j < a.Length1 ==> 0 <= a[i, j] <= n
  }

  predicate InRow(a: array2<int>, row: int, v: int)
    reads a
  {
    0 <= row < a.Length0 && exists j :: 0 <= j < a.Length1 && a[row, j] == v
  }

  predicate InCol(a: array2<int>, col: int, v: int)
    reads a
  {
    0 <= col < a.Length1 && exists i :: 0 <= i < a.Length0 && a[i, col] == v
  }

  /** `v` occurs in the b-by-b box whose top-left cell is (r0, c0). */
  predicate InBox(a: array2<int>, r0: int, c0: int, b: int, v: int)
    reads a
  {
    exists i, j :: r0 <= i < r0 + b && c0 <= j < c0 + b && 0 <= i < a.Length0 && 0 <= j < a.Length1 && a[i, j] == v
  }

  ghost predicate RowsDistinct(a: array2<int>)
    reads a
  {
    forall i, j1, j2 :: 0 <= i < a.Length0 && 0 <= j1 < j2 < a.Length1 && a[i, j1] != 0 ==> a[i, j1] != a[i, j2]
  }

  ghost predicate ColsDistinct(a: array2<int>)
    reads a
  {
    forall i1, i2, j :: 0 <= i1 < i2 < a.Length0 && 0 <= j < a.Length1 && a[i1, j] != 0 ==> a[i1, j] != a[i2, j]
  }

  ghost predicate BoxesDistinct(a: array2<int>, b: int)
    requires b > 0
    reads a
  {
    forall i1, j1, i2, j2 ::
      0 <= i1 < a.Length0 && 0 <= j1 < a.Length1 && 0 <= i2 < a.Length0 && 0 <= j2 < a.Length1 &&
      (i1 != i2 || j1 != j2) && BoxStart(i1, b) == BoxStart(i2, b) && BoxStart(j1, b) == BoxStart(j2, b) &&
      a[i1, j1] != 0
      ==> a[i1, j1] != a[i2, j2]
  }

  /** The Sudoku invariant: no nonzero value repeats in a row, a column or a box. */
  ghost predicate NoDuplicates(a: array2<int>, b: int)
    requires b > 0
    reads a
  {
    RowsDistinct(a) && ColsDistinct(a) && BoxesDistinct(a, b)
  }

  /** No cell is empty. */
  ghost predicate Full(a: array2<int>)
    reads a
  {
    forall i, j :: 0 <= i < a.Length0 && 0 <= j < a.Length1 ==> a[i, j] != 0
  }

  ghost function ZeroCells(a: array2<int>): set<(int, int)>
    reads a
  {
    set i, j | 0 <= i < a.Length0 && 0 <= j < a.Length1 && a[i, j] == 0 :: (i, j)
  }

  ghost function NonZeroCells(a: array2<int>): set<(int, int)>
    reads a
  {
    set i, j | 0 <= i < a.Length0 && 0 <= j < a.Length1 && a[i, j] != 0 :: (i, j)
  }

  /** Exactly the cells of the boxes on the main diagonal are filled. */
  ghost predicate DiagonalSeeded(a: array2<int>, b: int)
    requires b > 0
    reads a
  {
    forall i, j :: 0 <= i < a.Length0 && 0 <= j < a.Length1 ==> (a[i, j] != 0 <==> BoxStart(i, b) == BoxStart(j, b))
  }

  /**
   * A legal placement: coordinates and value in range, the cell empty, and the
   * value absent from the cell's row, column and box.
   */
  ghost predicate MoveAllowed(a: array2<int>, n: int, row: int, col: int, v: int)
    requires ValidSize(n) && HasSize(a, n)
    reads a
  {
    0 <= row < n && 0 <= col < n && 1 <= v <= n && a[row, col] == 0 &&
    !InRow(a, row, v) && !InCol(a, col, v) &&
    !InBox(a, BoxStart(row, BoxSize(n)), BoxStart(col, BoxSize(n)), BoxSize(n), v)
  }

  /**
   * What the generator hands out: a well-formed board that either had its holes
   * punched (exactly `HolesToPunch(n)` empty cells) or, when the solve failed,
   * is still the diagonal-seeded board.
   */
  ghost predicate Generated(a: array2<int>, n: int)
    requires ValidSize(n)
    reads a
  {
    HasSize(a, n) && CellsInRange(a, n) && NoDuplicates(a, BoxSize(n)) &&
    (|ZeroCells(a)| == HolesToPunch(n) || DiagonalSeeded(a, BoxSize(n)))
  }

  // ---------------------------------------------------------------------------
  // Box arithmetic. The side of a box is 2, 3 or 4, so each lemma splits on it
  // and the solver only meets division by a constant.

  /** A row lies inside its own box. */
  lemma WithinOwnBox(x: int, b: int)
    requires b > 0
    ensures BoxStart(x, b) <= x < BoxStart(x, b) + b
  {
  }

  /** The box of an in-range row starts on a multiple of the box side and ends inside the board. */
  lemma BoxStartBounds(x: int, n: int)
    requires ValidSize(n) && 0 <= x < n
    ensures 0 <= BoxStart(x, BoxSize(n)) <= x < BoxStart(x, BoxSize(n)) + BoxSize(n) <= n
    ensures BoxStart(x, BoxSize(n)) % BoxSize(n) == 0
  {
    if n == 4 {
      assert BoxSize(n) == 2;
    } else if n == 9 {
      assert BoxSize(n) == 3;
    } else {
      assert BoxSize(n) == 4;
    }
  }

  /** A row belongs to the box starting at the aligned row `s` exactly when it lies in [s, s + b). */
  lemma SameBoxIff(x: int, s: int, n: int)
    requires ValidSize(n) && 0 <= x && 0 <= s && s % BoxSize(n) == 0
    ensures BoxStart(x, BoxSize(n)) == s <==> s <= x < s + BoxSize(n)
  {
    if n == 4 {
      SameBoxOfSide2(x, s);
    } else if n == 9 {
      SameBoxOfSide3(x, s);
    } else {
      SameBoxOfSide4(x, s);
    }
  }

  lemma SameBoxOfSide2(x: int, s: int)
    requires 0 <= x && 0 <= s && s % 2 == 0
    ensures BoxStart(x, 2) == s <==> s <= x < s + 2
  {
    assert x == 2 * (x / 2) + x % 2 && s == 2 * (s / 2);
  }

  lemma SameBoxOfSide3(x: int, s: int)
    requires 0 <= x && 0 <= s && s % 3 == 0
    ensures BoxStart(x, 3) == s <==> s <= x < s + 3
  {
    assert x == 3 * (x / 3) + x % 3 && s == 3 * (s / 3);
  }

  lemma SameBoxOfSide4(x: int, s: int)
    requires 0 <= x && 0 <= s && s % 4 == 0
    ensures BoxStart(x, 4) == s <==> s <= x < s + 4
  {
    assert x == 4 * (x / 4) + x % 4 && s == 4 * (s / 4);
  }

  /** The rows at which the diagonal boxes start, and the side n at which the walk over them stops. */
  function DiagonalStarts(n: int): set<int> {
    if n == 4 then {0, 2, 4} else if n == 9 then {0, 3, 6, 9} else {0, 4, 8, 12, 16}
  }

  /** A start below n is a multiple of the box side, and one box further is the next start. */
  lemma NextBoxStart(s: int, n: int)
    requires ValidSize(n) && s in DiagonalStarts(n) && s < n
    ensures 0 <= s && s % BoxSize(n) == 0
    ensures s + BoxSize(n) in DiagonalStarts(n) && s + BoxSize(n) <= n
  {
  }

  /** Cell (i, j) of a box, counted row by row, comes before cell number b * b. */
  lemma BoxRankBelowSize(i: int, j: int, n: int)
    requires ValidSize(n) && 0 <= i < BoxSize(n) && 0 <= j < BoxSize(n)
    ensures 0 <= i * BoxSize(n) + j < n
  {
    if n == 4 {
      assert BoxSize(n) == 2;
    } else if n == 9 {
      assert BoxSize(n) == 3;
    } else {
      assert BoxSize(n) == 4;
    }
  }

  // ---------------------------------------------------------------------------
  // The Sudoku invariant under the two ways cells change.

  /** Writing `value` into cell (row, col) of `board`: a move, or a step of the solver. */
  datatype Placement = Placement(board: array2<int>, row: int, col: int, value: int)

  /**
   * Writing a value into an empty cell keeps the invariant when the value is
   * absent from the cell's row, column and box: the check that both `makeMove`
   * and the solver make before they write.
   */
  twostate lemma PlacementKeepsRules(m: Placement)
    requires ValidSize(m.board.Length0) && HasSize(m.board, m.board.Length0)
    requires 0 <= m.row < m.board.Length0 && 0 <= m.col < m.board.Length0 && 1 <= m.value <= m.board.Length0
    requires old(CellsInRange(m.board, m.board.Length0)) && old(NoDuplicates(m.board, BoxSize(m.board.Length0)))
    requires old(m.board[m.row, m.col]) == 0
    requires !old(InRow(m.board, m.row, m.value)) && !old(InCol(m.board, m.col, m.value))
    requires !old(InBox(m.board, BoxStart(m.row, BoxSize(m.board.Length0)), BoxStart(m.col, BoxSize(m.board.Length0)),
                        BoxSize(m.board.Length0), m.value))
    requires m.board[m.row, m.col] == m.value
    requires forall i, j :: 0 <= i < m.board.Length0 && 0 <= j < m.board.Length0 && (i != m.row || j != m.col) ==>
      m.board[i, j] == old(m.board[i, j])
    ensures CellsInRange(m.board, m.board.Length0) && NoDuplicates(m.board, BoxSize(m.board.Length0))
  {
    var a, n, row, col, v := m.board, m.board.Length0, m.row, m.col, m.value;
    var b := BoxSize(n);
    var r0, c0 := BoxStart(row, b), BoxStart(col, b);
    forall i1, j1, i2, j2 |
      0 <= i1 < n && 0 <= j1 < n && 0 <= i2 < n && 0 <= j2 < n &&
      (i1 != i2 || j1 != j2) && BoxStart(i1, b) == BoxStart(i2, b) && BoxStart(j1, b) == BoxStart(j2, b) &&
      a[i1, j1] != 0
      ensures a[i1, j1] != a[i2, j2]
    {
      if i1 == row && j1 == col {
        WithinOwnBox(i2, b);
        WithinOwnBox(j2, b);
        assert r0 <= i2 < r0 + b && c0 <= j2 < c0 + b;
        assert old(a[i2, j2]) != v;
      } else if i2 == row && j2 == col {
        WithinOwnBox(i1, b);
        WithinOwnBox(j1, b);
        assert r0 <= i1 < r0 + b && c0 <= j1 < c0 + b;
        assert old(a[i1, j1]) != v;
      }
    }
  }

  /** Emptying cells never breaks the invariant: empty cells are not compared. */
  twostate lemma ZeroingKeepsRules(a: array2<int>)
    requires ValidSize(a.Length0) && HasSize(a, a.Length0)
    requires old(CellsInRange(a, a.Length0)) && old(NoDuplicates(a, BoxSize(a.Length0)))
    requires forall i, j :: 0 <= i < a.Length0 && 0 <= j < a.Length1 ==> a[i, j] == old(a[i, j]) || a[i, j] == 0
    ensures CellsInRange(a, a.Length0) && NoDuplicates(a, BoxSize(a.Length0))
  {
  }

  /**
   * A single write moves exactly one cell between the empty and the filled
   * cells, or leaves both sets alone when it does not change whether the cell
   * is empty.
   */
  twostate lemma SingleWriteCells(m: Placement)
    requires 0 <= m.row < m.board.Length0 && 0 <= m.col < m.board.Length1
    requires m.board[m.row, m.col] == m.value
    requires forall i, j :: 0 <= i < m.board.Length0 && 0 <= j < m.board.Length1 && (i != m.row || j != m.col) ==>
      m.board[i, j] == old(m.board[i, j])
    ensures old(m.board[m.row, m.col]) != 0 && m.value == 0 ==>
      ZeroCells(m.board) == old(ZeroCells(m.board)) + {(m.row, m.col)} &&
      |ZeroCells(m.board)| == |old(ZeroCells(m.board))| + 1 &&
      |NonZeroCells(m.board)| == |old(NonZeroCells(m.board))| - 1
    ensures old(m.board[m.row, m.col]) == 0 && m.value != 0 ==>
      (m.row, m.col) in old(ZeroCells(m.board)) && ZeroCells(m.board) == old(ZeroCells(m.board)) - {(m.row, m.col)}
  {
    var a, x := m.board, (m.row, m.col);
    if old(a[m.row, m.col]) != 0 && m.value == 0 {
      assert ZeroCells(a) == old(ZeroCells(a)) + {x};
      assert NonZeroCells(a) == old(NonZeroCells(a)) - {x};
      assert x !in old(ZeroCells(a)) && x in old(NonZeroCells(a));
    } else if old(a[m.row, m.col]) == 0 && m.value != 0 {
      assert ZeroCells(a) == old(ZeroCells(a)) - {x};
    }
  }

  /**
   * A board whose filled cells all lie in diagonal boxes, each box holding
   * distinct values, has no repeated value in any row or column either: a row
   * or a column meets exactly one diagonal box.
   */
  lemma DiagonalBoxesAreIndependent(a: array2<int>, n: int)
    requires ValidSize(n) && HasSize(a, n)
    requires forall i, j :: 0 <= i < n && 0 <= j < n && a[i, j] != 0 ==> BoxStart(i, BoxSize(n)) == BoxStart(j, BoxSize(n))
    requires BoxesDistinct(a, BoxSize(n))
    ensures NoDuplicates(a, BoxSize(n))
  {
    var b := BoxSize(n);
    forall i, j1, j2 | 0 <= i < n && 0 <= j1 < j2 < n && a[i, j1] != 0
      ensures a[i, j1] != a[i, j2]
    {
      if a[i, j2] != 0 {
        assert BoxStart(j1, b) == BoxStart(j2, b);
      }
    }
    forall i1, i2, j | 0 <= i1 < i2 < n && 0 <= j < n && a[i1, j] != 0
      ensures a[i1, j] != a[i2, j]
    {
      if a[i2, j] != 0 {
        assert BoxStart(i1, b) == BoxStart(i2, b);
      }
    }
  }

  // ---------------------------------------------------------------------------
  // Counting cells and values.

  ghost function RowCells(i: int, m: int): set<(int, int)> {
    set j | 0 <= j < m :: (i, j)
  }

  ghost function Cells(k: int, m: int): set<(int, int)> {
    set i, j | 0 <= i < k && 0 <= j < m :: (i, j)
  }

  lemma {:induction false} RowCellsCount(i: int, m: nat)
    ensures |RowCells(i, m)| == m
  {
    if m == 0 {
      assert RowCells(i, m) == {};
    } else {
      assert RowCells(i, m) == RowCells(i, m - 1) + {(i, m - 1)};
      RowCellsCount(i, m - 1);
    }
  }

  /** A k-by-m block of cells has k * m cells. */
  lemma {:induction false} CellsCount(k: nat, m: nat)
    ensures |Cells(k, m)| == k * m
  {
    if k == 0 {
      assert Cells(k, m) == {};
    } else {
      CellsSplit(k, m);
      CellsCount(k - 1, m);
      RowCellsCount(k - 1, m);
      assert |Cells(k, m)| == (k - 1) * m + m;
      assert (k - 1) * m + m == k * m;
    }
  }

  /** A block of k rows is the block of its first k - 1 rows plus its last row. */
  lemma CellsSplit(k: nat, m: nat)
    requires k > 0
    ensures Cells(k, m) == Cells(k - 1, m) + RowCells(k - 1, m)
    ensures Cells(k - 1, m) * RowCells(k - 1, m) == {}
  {
  }

  /** A full n-by-n board has n * n filled cells. */
  lemma FullBoardCount(a: array2<int>, n: nat)
    requires HasSize(a, n) && Full(a)
    ensures |NonZeroCells(a)| == n * n && ZeroCells(a) == {}
  {
    assert NonZeroCells(a) == Cells(n, n);
    CellsCount(n, n);
  }

  /** The values 1..n. */
  ghost function Values(n: nat): set<int> {
    if n == 0 then {} else Values(n - 1) + {n}
  }

  lemma {:induction false} ValuesCount(n: nat)
    ensures |Values(n)| == n
    ensures forall v :: v in Values(n) <==> 1 <= v <= n
  {
    if n > 0 {
      ValuesCount(n - 1);
    }
  }

  /** Pigeonhole: fewer than n values drawn from 1..n leave one of 1..n unused. */
  lemma FreeValueExists(used: set<int>, n: nat)
    requires forall v :: v in used ==> 1 <= v <= n
    requires |used| < n
    ensures exists v :: 1 <= v <= n && v !in used
  {
    if forall v :: 1 <= v <= n ==> v in used {
      ValuesCount(n);
      assert Values(n) <= used;
      SubsetDifferenceCount(used, Values(n));
      assert false;
    }
  }

  /** Removing a subset removes exactly its number of elements. */
  lemma SubsetDifferenceCount<T>(s: set<T>, t: set<T>)
    requires t <= s
    ensures |s - t| == |s| - |t|
  {
    assert s == (s - t) + t;
    assert (s - t) * t == {};
  }
}
