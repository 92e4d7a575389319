/** The board model of the k-in-a-row game in game.js: players, cells, the
    size×size grid read as `board[x][y]`, and the conversion between a linear
    cell index and its coordinates. */
module BoardModel {

  datatype Option<T> = None | Some(value: T)

  /** The two movers; game.js encodes cross as 1 and ring as 2. */
  datatype Player = Cross | Ring

  /** One cell of the grid; game.js encodes an empty cell as 0. */
  datatype Cell = Empty | Mark(player: Player)

  /** The grid as game.js holds it: an outer array indexed by x whose
      elements are indexed by y, so a cell is `board[x][y]`. */
  type Grid = seq<seq<Cell>>

  /** `b` is a size×size grid. */
  predicate IsBoard(b: Grid, size: nat) {
    |b| == size && forall x :: 0 <= x < size ==> |b[x]| == size
  }

  /** The x coordinate of linear index `i`. */
  function X(i: int, size: nat): int
    requires size > 0
  {
    i % size
  }

  /** The y coordinate of linear index `i`. */
  function Y(i: int, size: nat): int
    requires size > 0
  {
    i / size
  }

  /** The linear index of the cell at (x, y); the inverse of (X, Y). */
  function IndexOf(x: int, y: int, size: nat): int {
    y * size + x
  }

  /** Division by `size` recovers the coordinates of an index built by IndexOf,
      and the index of an in-range cell is in range. */
  lemma CoordOfIndex(x: int, y: int, size: nat)
    requires 0 <= x < size && 0 <= y
    ensures X(IndexOf(x, y, size), size) == x && Y(IndexOf(x, y, size), size) == y
    ensures y < size ==> 0 <= IndexOf(x, y, size) < size * size
  {
    var i := IndexOf(x, y, size);
    var q, r := i / size, i % size;
    assert q * size + r == y * size + x;
    assert (q - y) * size == x - r;
    if q > y {
      MulAtLeast(q - y, size);
    } else if q < y {
      MulAtLeast(y - q, size);
    }
    if y < size {
      MulAtLeast(size - y, size);
      assert (size - y) * size == size * size - y * size;
    }
  }

  /** Every index in [0, size²) is IndexOf of its own in-range coordinates. */
  lemma IndexOfCoord(i: int, size: nat)
    requires 0 <= i < size * size
    ensures size > 0
    ensures 0 <= X(i, size) < size && 0 <= Y(i, size) < size
    ensures IndexOf(X(i, size), Y(i, size), size) == i
  {
    var q := i / size;
    if q >= size {
      MulNonNegative(q - size, size);
    }
  }

  lemma MulAtLeast(a: int, b: nat)
    requires a >= 1
    ensures a * b >= b
  {
    MulNonNegative(a - 1, b);
    assert a * b == (a - 1) * b + b;
  }

  lemma MulNonNegative(a: int, b: nat)
    requires a >= 0
    ensures a * b >= 0
  {
  }

  /** The cell at linear index `i`: the grid read at the coordinates that
      get2Dfrom1D computes for `i` (game.js:148, 251, 275). */
  function At(b: Grid, size: nat, i: int): Cell
    requires IsBoard(b, size) && 0 <= i < size * size
  {
    IndexOfCoord(i, size);
    b[X(i, size)][Y(i, size)]
  }

  /** `generateFreshBoard`: a size×size grid of empty cells. */
  function FreshBoard(size: nat): (b: Grid)
    ensures IsBoard(b, size)
    ensures forall i :: 0 <= i < size * size ==> At(b, size, i) == Empty
  {
    seq(size, _ => seq(size, _ => Empty))
  }

  /** The board with `p`'s mark written into the cell at linear index `i`,
      as `makeMove` does (game.js:153). */
  function Place(b: Grid, size: nat, i: int, p: Player): (r: Grid)
    requires IsBoard(b, size) && 0 <= i < size * size
    ensures IsBoard(r, size)
  {
    IndexOfCoord(i, size);
    var x, y := X(i, size), Y(i, size);
    b[x := b[x][y := Mark(p)]]
  }

  /** Placing a mark changes the target cell, to that mark, and no other cell. */
  lemma PlaceChangesOnlyTarget(b: Grid, size: nat, i: int, p: Player, j: int)
    requires IsBoard(b, size) && 0 <= i < size * size && 0 <= j < size * size
    ensures At(Place(b, size, i, p), size, j) == if j == i then Mark(p) else At(b, size, j)
  {
    IndexOfCoord(i, size);
    IndexOfCoord(j, size);
  }

  /** No cell of a board is empty. */
  ghost predicate Full(b: Grid, size: nat)
    requires IsBoard(b, size)
  {
    forall i :: 0 <= i < size * size ==> At(b, size, i) != Empty
  }

  /** `get2Dfrom1D(i, arr)`: scan the grid with a running count `n` and
      return the coordinates [x, y] of the `i`-th cell visited, or nothing
      (`undefined`) when `i` is not a visited count. */
  method Get2DFrom1D(i: int, arr: Grid, ghost size: nat) returns (r: Option<(int, int)>)
    requires IsBoard(arr, size)
    ensures r.Some? <==> 0 <= i < size * size
    ensures r.Some? ==> 0 <= r.value.0 < size && 0 <= r.value.1 < size && IndexOf(r.value.0, r.value.1, size) == i
    ensures r.Some? ==> r.value == (X(i, size), Y(i, size))
  {
    var n := 0;
    var y := 0;
    while y < |arr|
      invariant 0 <= y <= size
      invariant n == y * size
      invariant !(0 <= i < n)
    {
      var x := 0;
      while x < |arr[y]|
        invariant 0 <= x <= size
        invariant n == y * size + x
        invariant !(0 <= i < n)
      {
        if n == i {
          CoordOfIndex(x, y, size);
          return Some((x, y));
        }
        n := n + 1;
        x := x + 1;
      }
      y := y + 1;
    }
    return None;
  }

  /** The number of cells of `b` holding `c`. */
  function Count(b: Grid, c: Cell): nat
  {
    if |b| == 0 then 0 else Count(b[..|b| - 1], c) + multiset(b[|b| - 1])[c]
  }

  /** Replacing one column changes the count by what that column changes. */
  lemma {:induction false} CountUpdate(b: Grid, x: int, col: seq<Cell>, c: Cell)
    requires 0 <= x < |b|
    ensures Count(b[x := col], c) == Count(b, c) - multiset(b[x])[c] + multiset(col)[c]
    decreases |b|
  {
    var n := |b|;
    if x < n - 1 {
      assert b[x := col][..n - 1] == b[..n - 1][x := col];
      CountUpdate(b[..n - 1], x, col, c);
    } else {
      assert b[x := col][..n - 1] == b[..n - 1];
    }
  }

  /** Writing a mark into an empty cell adds one to that mark's count and
      leaves the other mark's count alone. */
  lemma CountPlace(b: Grid, size: nat, i: int, p: Player, q: Player)
    requires IsBoard(b, size) && 0 <= i < size * size && At(b, size, i) == Empty
    ensures Count(Place(b, size, i, p), Mark(q)) == Count(b, Mark(q)) + if q == p then 1 else 0
  {
    IndexOfCoord(i, size);
    var x, y := X(i, size), Y(i, size);
    var col := b[x][y := Mark(p)];
    assert multiset(col) == multiset(b[x]) - multiset{Empty} + multiset{Mark(p)};
    CountUpdate(b, x, col, Mark(q));
  }

  /** A grid none of whose columns holds `c` has no cell holding `c`. */
  lemma {:induction false} CountAbsent(b: Grid, c: Cell)
    requires forall x :: 0 <= x < |b| ==> c !in b[x]
    ensures Count(b, c) == 0
    decreases |b|
  {
    if |b| > 0 {
      CountAbsent(b[..|b| - 1], c);
    }
  }

  /** A fresh board holds no mark. */
  lemma CountFresh(size: nat, c: Cell)
    requires c != Empty
    ensures Count(FreshBoard(size), c) == 0
  {
    CountAbsent(FreshBoard(size), c);
  }
}
