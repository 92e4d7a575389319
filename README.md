# k-in-a-row rule engine (game.js), modelled in Dafny

game.js runs a `size`×`size` game in which cross (1) and ring (2) take
turns, and `winLength` marks in a row, column or diagonal win. The file
fixes `size = 15` and `winLength = 5`. This model takes both as
parameters, with `size >= 1` and `winLength >= 1`. It covers the rule
engine: the board and its index arithmetic, the line tables, the win/draw
evaluator `evalWinState`, and one click, `mutateBoard(makeMove(turn, board, i))`.

Files and modules, following the pieces of game.js:

- `board.dfy`, module `BoardModel`. `Player`, `Cell` (Empty | Mark) and the
  grid read as `board[x][y]`. It also has `generateFreshBoard`, the
  `get2Dfrom1D` scan (a method with nested loops), and the cell write of
  `makeMove`. Linear index `i` is the cell `x = i % size`, `y = i / size`.
- `lines.dfy`, module `LineIndex`. The tables `rows`, `columns`, `diags1` to
  `diags4` and `flatRanks`, written with game.js's own index formulas. The
  lemmas state which cell each entry is, and prove that each family
  partitions the board.
- `winstate.dfy`, module `WinState`. What `evalWinState` yields, as ghost
  functions: per line, a cross win and then a ring win, each when the
  line's values hold a run; then one closing item. `EvalWinState` is the
  loop itself, proved equal to that specification. `Includes` models the
  `join(",").includes(...)` test as a search for a contiguous
  subsequence.
- `game.dfy`, module `GameState`. `toggleTurn`, the conclusion loop of
  `mutateBoard` (`Announce`), and class `Game`, which holds `board` and
  `turn` as fields. `MakeMove`, `MutateBoard` and `Click` update those
  fields; `mutateTurn` is the assignment of `turn` inside `MakeMove`. `Click` returns the status that the click leaves on screen:
  `makeMove`'s "" or "New game, ...", unless `mutateBoard` replaces it
  with a win or tie message. `StatusText` gives the exact strings.

The conclusions `{player, rank}`, `{player: 0}` and `{}` become
`Win(player, rank)`, `Tie` and `Open`.

The model records what game.js does in these cases:

- The draw item is always the last one yielded, even after wins.
- A win's `rank` is every cell of the line holding that player's mark, not
  only the run.
- A reset keeps the current `turn`. The next game opens with whoever was to
  move, so after a win that is the loser.
- The "copy" `board.slice(0)` is shallow.
- An out-of-range index makes `get2Dfrom1D` return `undefined`. It does not
  raise an error.
- `size < winLength` is accepted.

## Model

| member | source | states |
|---|---|---|
| `BoardModel.FreshBoard` | game.js:54-56 | the fresh board is size×size and every cell is empty |
| `BoardModel.Get2DFrom1D` | game.js:118-126 | the counting scan finds `i` exactly when 0 <= i < size²; it then returns in-range [x, y] with y·size + x == i, which is [i % size, i / size] |
| `BoardModel.CoordOfIndex` | game.js:118-126 | (x, y) -> y·size + x is undone by % and /, and lands in [0, size²) for an in-range cell |
| `BoardModel.IndexOfCoord` | game.js:118-126 | every i in [0, size²) has in-range coordinates (i % size, i / size) that map back to i; with CoordOfIndex, a bijection onto [0,size)×[0,size) |
| `BoardModel.Place` | game.js:153 | the board after `p`'s mark is written into cell i is again size×size; PlaceChangesOnlyTarget and CountPlace state what the write changes |
| `BoardModel.PlaceChangesOnlyTarget` | game.js:153 | writing `player` at cell i sets that cell to the mark and leaves every other cell unchanged |
| `BoardModel.CountPlace` | game.js:153 | a mark written into an empty cell raises that player's mark count by one and leaves the other's alone |
| `BoardModel.CountFresh` | game.js:54-56 | a fresh board holds no mark of either player |
| `BoardModel.CountAbsent` | game.js:54-56 | a grid none of whose columns holds a cell value has no cell holding it |
| `LineIndex.Rows` | game.js:206-208 | none of its own; the table with game.js's formula `i + n·size`, described by RowCell, InRow and RowsPartition |
| `LineIndex.Columns` | game.js:210-212 | none of its own; the table with the formula `n + i·size`, described by ColumnCell, InColumn and ColumnsPartition |
| `LineIndex.Diags1` | game.js:214-216 | none of its own; the table with game.js's formula, described by Diags1Cell, InDiags1 and DownRightPartition |
| `LineIndex.Diags2` | game.js:218-223 | none of its own; the table with game.js's formula, described by Diags2Cell, InDiags2 and DownRightPartition |
| `LineIndex.Diags3` | game.js:225-230 | none of its own; the table with game.js's `length`-based formula, described by Diags3Cell, InDiags3 and DownLeftPartition |
| `LineIndex.Diags4` | game.js:232-237 | none of its own; the table with game.js's `length`-based formula, described by Diags4Cell, InDiags4 and DownLeftPartition |
| `LineIndex.Diags` | game.js:239 | none of its own; `diags1` to `diags4` joined in that order; InRangeConcat and AllLinesInRange state it holds only cells |
| `LineIndex.AllLines` | game.js:246 | none of its own; `flatRanks`, rows then columns then diagonals; AllLinesInRange and CellOnItsRow state its size, range and that every cell is on it |
| `LineIndex.RowCell` | game.js:206-208 | `rows` has size lines of length size; entry i of row n is the cell (i, n) |
| `LineIndex.ColumnCell` | game.js:210-212 | `columns` has size lines of length size; entry i of column n is the cell (n, i) |
| `LineIndex.Diags1Cell` | game.js:214-216 | `diags1` has size lines, line n of length size − n; entry i is the cell (i, n + i) |
| `LineIndex.Diags2Cell` | game.js:218-223 | `diags2` has size − 1 lines, line n of length size − n − 1; entry i is the cell (n + 1 + i, i) |
| `LineIndex.Diags3Cell` | game.js:225-230 | `diags3` has size lines, line n of length size − n; entry i is the cell (i, size − n − 1 − i) |
| `LineIndex.Diags4Cell` | game.js:232-237 | `diags4` has size − 1 lines, line n of length size − n − 1; entry i is the cell (n + 1 + i, size − 1 − i) |
| `LineIndex.InRow` | game.js:206-208 | a cell is in row n exactly when its y is n |
| `LineIndex.InColumn` | game.js:210-212 | a cell is in column n exactly when its x is n |
| `LineIndex.InDiags1` | game.js:214-216 | a cell is in `diags1[n]` exactly when y − x == n |
| `LineIndex.InDiags2` | game.js:218-223 | a cell is in `diags2[n]` exactly when x − y == n + 1 |
| `LineIndex.InDiags3` | game.js:225-230 | a cell is in `diags3[n]` exactly when x + y == size − 1 − n |
| `LineIndex.InDiags4` | game.js:232-237 | a cell is in `diags4[n]` exactly when x + y == size + n |
| `LineIndex.InDownRight` | game.js:214-223 | `diags1 ++ diags2` has 2·size − 1 lines; a cell is on line m exactly when m is the down-right diagonal through it |
| `LineIndex.InDownLeft` | game.js:225-237 | `diags3 ++ diags4` has 2·size − 1 lines; a cell is on line m exactly when m is the down-left diagonal (one per x + y) through it |
| `LineIndex.InRangeConcat` | game.js:239 | joining two tables of in-range indices gives a table of in-range indices |
| `LineIndex.RowsPartition` | game.js:206-208 | every row index is a cell and every cell lies on exactly one row |
| `LineIndex.ColumnsPartition` | game.js:210-212 | every column index is a cell and every cell lies on exactly one column |
| `LineIndex.DownRightPartition` | game.js:214-223 | the down-right family has 2·size − 1 lines, only cells, and every cell on exactly one of them |
| `LineIndex.DownLeftPartition` | game.js:225-237 | the down-left family has 2·size − 1 lines, only cells, and every cell on exactly one of them |
| `LineIndex.AllLinesInRange` | game.js:239-246 | `flatRanks` has 6·size − 2 lines and every index on them is a cell |
| `LineIndex.CellOnItsRow` | game.js:246 | every cell is entry x of line y of `flatRanks` (its row) |
| `WinState.Decided` | game.js:143 | none of its own; the test `player !== undefined` (also game.js:172); ConclusionsDecided states that some item passes it exactly when the board is concluded |
| `WinState.Players` | game.js:259 | none of its own; cross then ring, the order LineWinsUnfold and WinsOrder state |
| `WinState.Values` | game.js:250-257 | none of its own; `mappedRank`, the cell values along a line; EvalWinState's loop invariant proves the loop builds exactly it |
| `WinState.Repeat` | game.js:260 | none of its own; `playerRank`, winLength copies of the player's mark; IncludesRepeat states what searching for it means |
| `WinState.Includes` | game.js:262 | none of its own; the `includes` search on sequences; IncludesRepeat states it is exactly the run test |
| `WinState.Pick` | game.js:266-267 | none of its own; the filter and map of `winningRank`; EvalWinState's loop invariant proves it equals the rank, whose members RankMembers states |
| `WinState.IncludesRepeat` | game.js:259-262 | the `includes` test of `winLength` copies of p holds exactly when the line values have winLength consecutive marks of p |
| `WinState.RankMembers` | game.js:249-257 | a win's rank holds exactly the cells of the line that hold the player's mark |
| `WinState.RankAppend` | game.js:249-257 | the rank keeps line order: the rank of u + w is the rank of u followed by the rank of w |
| `WinState.RankOfWindow` | game.js:249-257 | a stretch of m − j marks of p on a line puts at least m − j cells into the rank of that prefix |
| `WinState.RankOfRun` | game.js:259-267 | a line with a run of winLength marks of p has a rank of at least winLength cells |
| `WinState.FirstWinningLine` | game.js:170-184 | the first line, in `flatRanks` order, that holds a run of either player; none when no line does |
| `WinState.LineWinsUnfold` | game.js:259-268 | one line yields a cross win (if it has a cross run) followed by a ring win (if it has a ring run) |
| `WinState.LineWinsMembers` | game.js:259-268 | one line yields `Win(p, r)` exactly when it holds a run of p and r is its rank for p, and yields nothing else |
| `WinState.WinsMembers` | game.js:245-270 | `Win(p, r)` is among the items yielded before the closing one exactly when some line has a run of p and r is that line's rank |
| `WinState.WinsOrder` | game.js:245-270 | all items before the closing one are wins; there are none exactly when no line has a run; otherwise the first is the first winning line's win, cross before ring |
| `WinState.FinalItemFull` | game.js:272-281 | for any lines on which every cell appears somewhere, the closing item is `{player: 0}` exactly when no cell is empty, else `{}` |
| `WinState.FinalItemOnAllLines` | game.js:272-281 | with `flatRanks`, the closing item is the draw marker exactly when the board is full |
| `WinState.ConclusionsDecided` | game.js:245-282 | the yielded items are the wins and then the closing item; some item has a player exactly when a line has a run or the board is full |
| `WinState.EvalWinState` | game.js:245-282 | the loop yields exactly the specified items: the wins, line by line and cross before ring, with their ranks, then the draw test |
| `GameState.StatusText` | game.js:144-179 | none of its own; the exact status strings of `makeMove` (game.js:144) and `mutateBoard` (game.js:173-179) |
| `GameState.Toggle` | game.js:202-204 | the turn always passes to the other player; with two players this fixes the result and makes toggling its own inverse |
| `GameState.Announce` | game.js:170-184 | the message is that of the first win when there is one; with no win, it is the tie's when the draw marker appears, and nothing otherwise |
| `GameState.FreshUndecided` | game.js:54-56 | a fresh board is not concluded and gets no message |
| `GameState.Game.constructor` | game.js:37-43 | a fresh board with cross to move; the invariant and the mark balance hold |
| `GameState.Game.MakeMove` | game.js:134-158 | a concluded board gives a fresh board, with the turn kept and "New game, <turn> to move"; an occupied cell changes nothing; an empty cell gets the mover's mark and the turn toggles |
| `GameState.Game.MutateBoard` | game.js:165-187 | the board is installed and the message of the first winning line's winner, else of the tie on a full board, is put up |
| `GameState.Game.Click` | game.js:286-288 | one click: reset on a concluded board, nothing on an occupied cell, or the mark placed, the turn toggled and the resulting verdict shown; no placed mark ever changes short of a reset; the mark counts stay balanced against the turn |

## Left out

- DOM setup and rendering: tile creation and grid styling (game.js:17-31), `updateBoard` and its highlight classes (game.js:63-94). They are presentation only.
- Writing the status text into the page (`updateStatus`, game.js:100-102). `Click` returns the status instead, and `StatusText` gives the exact string.
- `mutateStatus` (game.js:108-110). It assigns its parameter to itself and changes no state, so the module-level `status` is not modelled.
- The `console.log` calls (game.js:81, 264). They are side effects with no effect on the game.
- Attaching the click listeners (game.js:285-288). The clicked tile index becomes the parameter of `Click`. Tile indices are always below size², so `Click` requires `0 <= i < size * size`.
- The string encoding of the run test (game.js:262). The model searches the cell sequence for the repeated mark, and does not prove the equivalence with comma-joined strings. The two agree because the cell values are single digits.
- The numeric encoding 0/1/2 of cells and players. It becomes datatypes, so `toggleTurn` sees only cross or ring. Nothing else can reach it in game.js.
- The laziness of the generator `evalWinState`. It is modelled as the complete list. `makeMove` stops at the first item that has a player, and that gives the same outcome as scanning the whole list.
- BoardModel.Get2DFrom1D: requires a square board (all that game.js passes it), so its result on ragged arrays is not stated.
- The shallow copy in `makeMove` (game.js:137). `newBoard` shares its columns with `board`, so the write changes the old board in place. Right after that, `mutateBoard` replaces the old board. The model writes the cell into the board value, so it does not capture the aliasing between the two.
