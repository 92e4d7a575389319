/** The line tables of game.js: every row, every column and both diagonal
    families of a size×size board, each line an ordered list of linear
    cell indices. */
module LineIndex {
  import opened BoardModel

  type Line = seq<int>

  /** `rows`: line `n` holds the indices `i + n * size`. */
  function Rows(size: nat): seq<Line> {
    seq(size, n => seq(size, i => i + n * size))
  }

  /** `columns`: line `n` holds the indices `n + i * size`. */
  function Columns(size: nat): seq<Line> {
    seq(size, n => seq(size, i => n + i * size))
  }

  /** `diags1`: `size` lines, line `n` of length `size - n`. */
  function Diags1(size: nat): seq<Line> {
    seq(size, n requires 0 <= n < size => seq(size - n, i => i + i * size + size * n))
  }

  /** `diags2`: `size - 1` lines, line `n` of length `size - n - 1`. */
  function Diags2(size: nat): seq<Line>
    requires size >= 1
  {
    seq(size - 1, n requires 0 <= n < size - 1 => seq(size - n - 1, i => (n + 1) + i * size + i))
  }

  /** `diags3`: `size` lines; `length` is the length of line `n`. */
  function Diags3(size: nat): seq<Line> {
    seq(size, n requires 0 <= n < size =>
      var length := size - n;
      seq(length, i => size * length - size * (i + 1) + i))
  }

  /** `diags4`: `size - 1` lines; `length` is the length of line `n`. */
  function Diags4(size: nat): seq<Line>
    requires size >= 1
  {
    seq(size - 1, n requires 0 <= n < size - 1 =>
      var length := size - n - 1;
      seq(length, i => size * (length - 1) + (n + 1) * size + (n + 1) - (size * i - i)))
  }

  /** `diags`. */
  function Diags(size: nat): seq<Line>
    requires size >= 1
  {
    Diags1(size) + Diags2(size) + Diags3(size) + Diags4(size)
  }

  /** `flatRanks` in `evalWinState`: rows, then columns, then the diagonals. */
  function AllLines(size: nat): seq<Line>
    requires size >= 1
  {
    Rows(size) + Columns(size) + Diags(size)
  }

  /** The diagonals that run down-right (x and y both grow along the line). */
  function DownRight(size: nat): seq<Line>
    requires size >= 1
  {
    Diags1(size) + Diags2(size)
  }

  /** The diagonals that run down-left (x grows while y shrinks). */
  function DownLeft(size: nat): seq<Line>
    requires size >= 1
  {
    Diags3(size) + Diags4(size)
  }

  // ---------------------------------------------------------------------
  // Shape: which cell each entry of each table is

  /** Row `n` runs along y = n, x = 0, 1, .., size - 1. */
  lemma RowCell(size: nat, n: int, i: int)
    requires 0 <= n < size && 0 <= i < size
    ensures |Rows(size)| == size && |Rows(size)[n]| == size
    ensures Rows(size)[n][i] == IndexOf(i, n, size)
  {
  }

  /** Column `n` runs along x = n, y = 0, 1, .., size - 1. */
  lemma ColumnCell(size: nat, n: int, i: int)
    requires 0 <= n < size && 0 <= i < size
    ensures |Columns(size)| == size && |Columns(size)[n]| == size
    ensures Columns(size)[n][i] == IndexOf(n, i, size)
  {
  }

  /** `diags1[n]` starts at (0, n) and steps down-right: entry i is (i, n + i). */
  lemma Diags1Cell(size: nat, n: int, i: int)
    requires 0 <= n < size && 0 <= i < size - n
    ensures |Diags1(size)| == size && |Diags1(size)[n]| == size - n
    ensures Diags1(size)[n][i] == IndexOf(i, n + i, size)
  {
    assert i + i * size + size * n == (n + i) * size + i;
  }

  /** `diags2[n]` starts at (n + 1, 0) and steps down-right: entry i is (n + 1 + i, i). */
  lemma Diags2Cell(size: nat, n: int, i: int)
    requires size >= 1 && 0 <= n < size - 1 && 0 <= i < size - n - 1
    ensures |Diags2(size)| == size - 1 && |Diags2(size)[n]| == size - n - 1
    ensures Diags2(size)[n][i] == IndexOf(n + 1 + i, i, size)
  {
  }

  /** `diags3[n]` starts at (0, size - n - 1) and steps up-right:
      entry i is (i, size - n - 1 - i), so x + y == size - 1 - n. */
  lemma Diags3Cell(size: nat, n: int, i: int)
    requires 0 <= n < size && 0 <= i < size - n
    ensures |Diags3(size)| == size && |Diags3(size)[n]| == size - n
    ensures Diags3(size)[n][i] == IndexOf(i, size - n - 1 - i, size)
  {
    var length := size - n;
    assert size * length - size * (i + 1) == (size - n - 1 - i) * size;
  }

  /** `diags4[n]` starts at (n + 1, size - 1) and steps up-right:
      entry i is (n + 1 + i, size - 1 - i), so x + y == size + n. */
  lemma Diags4Cell(size: nat, n: int, i: int)
    requires size >= 1 && 0 <= n < size - 1 && 0 <= i < size - n - 1
    ensures |Diags4(size)| == size - 1 && |Diags4(size)[n]| == size - n - 1
    ensures Diags4(size)[n][i] == IndexOf(n + 1 + i, size - 1 - i, size)
  {
    var length := size - n - 1;
    assert size * (length - 1) + (n + 1) * size - size * i == (size - 1 - i) * size;
  }

  // ---------------------------------------------------------------------
  // Membership: a cell lies on a line exactly when its coordinates say so

  /** A cell is in row `n` exactly when its y coordinate is `n`. */
  lemma InRow(size: nat, n: int, j: int)
    requires 0 <= n < size && 0 <= j < size * size
    ensures j in Rows(size)[n] <==> Y(j, size) == n
  {
    IndexOfCoord(j, size);
    if j in Rows(size)[n] {
      var i :| 0 <= i < size && Rows(size)[n][i] == j;
      RowCell(size, n, i);
      CoordOfIndex(i, n, size);
    }
    if Y(j, size) == n {
      RowCell(size, n, X(j, size));
    }
  }

  /** A cell is in column `n` exactly when its x coordinate is `n`. */
  lemma InColumn(size: nat, n: int, j: int)
    requires 0 <= n < size && 0 <= j < size * size
    ensures j in Columns(size)[n] <==> X(j, size) == n
  {
    IndexOfCoord(j, size);
    if j in Columns(size)[n] {
      var i :| 0 <= i < size && Columns(size)[n][i] == j;
      ColumnCell(size, n, i);
      CoordOfIndex(n, i, size);
    }
    if X(j, size) == n {
      ColumnCell(size, n, Y(j, size));
    }
  }

  /** The position, in `DownRight(size)`, of the down-right diagonal through cell `j`. */
  function DownRightOf(j: int, size: nat): int
    requires size > 0
  {
    var x, y := X(j, size), Y(j, size);
    if y >= x then y - x else size - 1 + (x - y)
  }

  /** The position, in `DownLeft(size)`, of the down-left diagonal through cell `j`. */
  function DownLeftOf(j: int, size: nat): int
    requires size > 0
  {
    var x, y := X(j, size), Y(j, size);
    if x + y <= size - 1 then size - 1 - (x + y) else x + y
  }

  lemma InDiags1(size: nat, n: int, j: int)
    requires 0 <= n < size && 0 <= j < size * size
    ensures j in Diags1(size)[n] <==> Y(j, size) - X(j, size) == n
  {
    IndexOfCoord(j, size);
    if j in Diags1(size)[n] {
      var i :| 0 <= i < size - n && Diags1(size)[n][i] == j;
      Diags1Cell(size, n, i);
      CoordOfIndex(i, n + i, size);
    }
    if Y(j, size) - X(j, size) == n {
      Diags1Cell(size, n, X(j, size));
    }
  }

  lemma InDiags2(size: nat, n: int, j: int)
    requires size >= 1 && 0 <= n < size - 1 && 0 <= j < size * size
    ensures j in Diags2(size)[n] <==> X(j, size) - Y(j, size) == n + 1
  {
    IndexOfCoord(j, size);
    if j in Diags2(size)[n] {
      var i :| 0 <= i < size - n - 1 && Diags2(size)[n][i] == j;
      Diags2Cell(size, n, i);
      CoordOfIndex(n + 1 + i, i, size);
    }
    if X(j, size) - Y(j, size) == n + 1 {
      Diags2Cell(size, n, Y(j, size));
    }
  }

  lemma InDiags3(size: nat, n: int, j: int)
    requires 0 <= n < size && 0 <= j < size * size
    ensures j in Diags3(size)[n] <==> X(j, size) + Y(j, size) == size - 1 - n
  {
    IndexOfCoord(j, size);
    if j in Diags3(size)[n] {
      var i :| 0 <= i < size - n && Diags3(size)[n][i] == j;
      Diags3Cell(size, n, i);
      CoordOfIndex(i, size - n - 1 - i, size);
    }
    if X(j, size) + Y(j, size) == size - 1 - n {
      Diags3Cell(size, n, X(j, size));
    }
  }

  lemma InDiags4(size: nat, n: int, j: int)
    requires size >= 1 && 0 <= n < size - 1 && 0 <= j < size * size
    ensures j in Diags4(size)[n] <==> X(j, size) + Y(j, size) == size + n
  {
    IndexOfCoord(j, size);
    if j in Diags4(size)[n] {
      var i :| 0 <= i < size - n - 1 && Diags4(size)[n][i] == j;
      Diags4Cell(size, n, i);
      CoordOfIndex(n + 1 + i, size - 1 - i, size);
    }
    if X(j, size) + Y(j, size) == size + n {
      Diags4Cell(size, n, X(j, size) - n - 1);
    }
  }

  /** The down-right family has 2·size − 1 lines, and cell `j` lies on line
      `m` of it exactly when `m` is the diagonal through `j`. */
  lemma InDownRight(size: nat, m: int, j: int)
    requires size >= 1 && 0 <= m < 2 * size - 1 && 0 <= j < size * size
    ensures |DownRight(size)| == 2 * size - 1
    ensures j in DownRight(size)[m] <==> m == DownRightOf(j, size)
  {
    IndexOfCoord(j, size);
    if m < size {
      assert DownRight(size)[m] == Diags1(size)[m];
      InDiags1(size, m, j);
    } else {
      assert DownRight(size)[m] == Diags2(size)[m - size];
      InDiags2(size, m - size, j);
    }
  }

  /** The down-left family has 2·size − 1 lines, and cell `j` lies on line
      `m` of it exactly when `m` is the diagonal through `j`. */
  lemma InDownLeft(size: nat, m: int, j: int)
    requires size >= 1 && 0 <= m < 2 * size - 1 && 0 <= j < size * size
    ensures |DownLeft(size)| == 2 * size - 1
    ensures j in DownLeft(size)[m] <==> m == DownLeftOf(j, size)
  {
    IndexOfCoord(j, size);
    if m < size {
      assert DownLeft(size)[m] == Diags3(size)[m];
      InDiags3(size, m, j);
    } else {
      assert DownLeft(size)[m] == Diags4(size)[m - size];
      InDiags4(size, m - size, j);
    }
  }

  // ---------------------------------------------------------------------
  // Partition and range

  /** Every index in `family` is a cell of the board. */
  ghost predicate InRange(family: seq<Line>, size: nat) {
    forall l, t :: 0 <= l < |family| && 0 <= t < |family[l]| ==> 0 <= family[l][t] < size * size
  }

  /** Cell `j` lies on exactly one line of `family`. */
  ghost predicate OnExactlyOne(family: seq<Line>, j: int) {
    exists l :: 0 <= l < |family| && j in family[l] &&
      forall l' :: 0 <= l' < |family| && j in family[l'] ==> l' == l
  }

  /** Every cell of the board lies on exactly one line of `family`. */
  ghost predicate CoversOnce(family: seq<Line>, size: nat) {
    forall j :: 0 <= j < size * size ==> OnExactlyOne(family, j)
  }

  lemma InRangeConcat(a: seq<Line>, b: seq<Line>, size: nat)
    requires InRange(a, size) && InRange(b, size)
    ensures InRange(a + b, size)
  {
    forall l, t | 0 <= l < |a + b| && 0 <= t < |(a + b)[l]|
      ensures 0 <= (a + b)[l][t] < size * size
    {
      if l >= |a| {
        assert (a + b)[l] == b[l - |a|];
      }
    }
  }

  lemma RowsPartition(size: nat)
    ensures |Rows(size)| == size && InRange(Rows(size), size) && CoversOnce(Rows(size), size)
  {
    forall l, t | 0 <= l < size && 0 <= t < |Rows(size)[l]|
      ensures 0 <= Rows(size)[l][t] < size * size
    {
      RowCell(size, l, t);
      CoordOfIndex(t, l, size);
    }
    forall j | 0 <= j < size * size
      ensures OnExactlyOne(Rows(size), j)
    {
      IndexOfCoord(j, size);
      var l := Y(j, size);
      InRow(size, l, j);
      forall l' | 0 <= l' < size && j in Rows(size)[l'] ensures l' == l {
        InRow(size, l', j);
      }
    }
  }

  lemma ColumnsPartition(size: nat)
    ensures |Columns(size)| == size && InRange(Columns(size), size) && CoversOnce(Columns(size), size)
  {
    forall l, t | 0 <= l < size && 0 <= t < |Columns(size)[l]|
      ensures 0 <= Columns(size)[l][t] < size * size
    {
      ColumnCell(size, l, t);
      CoordOfIndex(l, t, size);
    }
    forall j | 0 <= j < size * size
      ensures OnExactlyOne(Columns(size), j)
    {
      IndexOfCoord(j, size);
      var l := X(j, size);
      InColumn(size, l, j);
      forall l' | 0 <= l' < size && j in Columns(size)[l'] ensures l' == l {
        InColumn(size, l', j);
      }
    }
  }

  lemma DownRightPartition(size: nat)
    requires size >= 1
    ensures |DownRight(size)| == 2 * size - 1
    ensures InRange(DownRight(size), size) && CoversOnce(DownRight(size), size)
  {
    var f := DownRight(size);
    InDownRight(size, 0, 0);
    forall l, t | 0 <= l < |f| && 0 <= t < |f[l]|
      ensures 0 <= f[l][t] < size * size
    {
      if l < size {
        Diags1Cell(size, l, t);
        CoordOfIndex(t, l + t, size);
      } else {
        Diags2Cell(size, l - size, t);
        CoordOfIndex(l - size + 1 + t, t, size);
      }
    }
    forall j | 0 <= j < size * size
      ensures OnExactlyOne(f, j)
    {
      IndexOfCoord(j, size);
      var l := DownRightOf(j, size);
      InDownRight(size, l, j);
      forall l' | 0 <= l' < |f| && j in f[l'] ensures l' == l {
        InDownRight(size, l', j);
      }
    }
  }

  lemma DownLeftPartition(size: nat)
    requires size >= 1
    ensures |DownLeft(size)| == 2 * size - 1
    ensures InRange(DownLeft(size), size) && CoversOnce(DownLeft(size), size)
  {
    var f := DownLeft(size);
    InDownLeft(size, 0, 0);
    forall l, t | 0 <= l < |f| && 0 <= t < |f[l]|
      ensures 0 <= f[l][t] < size * size
    {
      if l < size {
        Diags3Cell(size, l, t);
        CoordOfIndex(t, size - l - 1 - t, size);
      } else {
        Diags4Cell(size, l - size, t);
        CoordOfIndex(l - size + 1 + t, size - 1 - t, size);
      }
    }
    forall j | 0 <= j < size * size
      ensures OnExactlyOne(f, j)
    {
      IndexOfCoord(j, size);
      var l := DownLeftOf(j, size);
      InDownLeft(size, l, j);
      forall l' | 0 <= l' < |f| && j in f[l'] ensures l' == l {
        InDownLeft(size, l', j);
      }
    }
  }

  /** `flatRanks` holds 6·size − 2 lines, all made of cells of the board. */
  lemma AllLinesInRange(size: nat)
    requires size >= 1
    ensures |AllLines(size)| == 6 * size - 2
    ensures InRange(AllLines(size), size)
  {
    RowsPartition(size);
    ColumnsPartition(size);
    DownRightPartition(size);
    DownLeftPartition(size);
    var r, c, d1, d2 := Rows(size), Columns(size), DownRight(size), DownLeft(size);
    assert AllLines(size) == r + c + d1 + d2;
    InRangeConcat(r, c, size);
    InRangeConcat(r + c, d1, size);
    InRangeConcat(r + c + d1, d2, size);
  }

  /** The rows come first in `flatRanks`: cell `j` is entry `X(j)` of line `Y(j)`. */
  lemma CellOnItsRow(size: nat, j: int)
    requires size >= 1 && 0 <= j < size * size
    ensures 0 <= Y(j, size) < size <= |AllLines(size)| && 0 <= X(j, size) < |AllLines(size)[Y(j, size)]|
    ensures AllLines(size)[Y(j, size)][X(j, size)] == j
  {
    IndexOfCoord(j, size);
    RowCell(size, Y(j, size), X(j, size));
    assert AllLines(size)[Y(j, size)] == Rows(size)[Y(j, size)];
  }
}
