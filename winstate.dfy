/** The win/draw evaluator of game.js (`evalWinState`): for every line and
    every player, a win when the line holds `winLength` consecutive marks of
    that player, then one closing item that says whether the board is full. */
module WinState {
  import opened BoardModel
  import opened LineIndex

  /** One item yielded by `evalWinState`: a win `{player, rank}`, the draw
      marker `{player: 0}` (Tie), or the empty object `{}` (Open). */
  datatype Conclusion = Win(player: Player, rank: seq<int>) | Tie | Open

  /** The item carries a player: it is a win or the draw marker, the test
      `makeMove` and `mutateBoard` apply to each item (game.js:143, 172). */
  predicate Decided(c: Conclusion) {
    !c.Open?
  }

  /** The players in the order `evalWinState` tries them on each line:
      cross, then ring (game.js:259). */
  const Players: seq<Player> := [Cross, Ring]

  /** Every index on `line` is a cell of the board. */
  predicate LineOk(line: Line, size: nat) {
    forall t :: 0 <= t < |line| ==> 0 <= line[t] < size * size
  }

  /** `mappedRank`: the cell values along `line`, in line order. */
  ghost function Values(b: Grid, size: nat, line: Line): (vs: seq<Cell>)
    requires IsBoard(b, size) && LineOk(line, size)
  {
    seq(|line|, t requires 0 <= t < |line| => At(b, size, line[t]))
  }

  // ---------------------------------------------------------------------
  // The run test

  /** `playerRank`: `winLength` copies of `p`'s mark. */
  function Repeat(p: Player, winLength: nat): seq<Cell> {
    seq(winLength, _ => Mark(p))
  }

  /** `hay.includes(needle)` on sequences: `needle` occurs contiguously in `hay`.
      (game.js compares the comma-joined strings; with one-digit cell values
      the two tests agree.) */
  function Includes(hay: seq<Cell>, needle: seq<Cell>): bool
    decreases |hay|
  {
    if |hay| < |needle| then false
    else hay[..|needle|] == needle || Includes(hay[1..], needle)
  }

  /** Positions j .. j + winLength - 1 of `vs` all hold `p`'s mark. */
  ghost predicate RunAt(vs: seq<Cell>, p: Player, winLength: nat, j: int) {
    0 <= j && j + winLength <= |vs| && forall t :: j <= t < j + winLength ==> vs[t] == Mark(p)
  }

  /** `vs` holds `winLength` consecutive marks of `p`. */
  ghost predicate HasRun(vs: seq<Cell>, p: Player, winLength: nat) {
    exists j :: RunAt(vs, p, winLength, j)
  }

  /** The `includes` test on `playerRank` is exactly the run test. */
  lemma {:induction false} IncludesRepeat(vs: seq<Cell>, p: Player, winLength: nat)
    ensures Includes(vs, Repeat(p, winLength)) <==> HasRun(vs, p, winLength)
    decreases |vs|
  {
    var needle := Repeat(p, winLength);
    if |vs| >= winLength {
      if vs[..winLength] == needle {
        assert RunAt(vs, p, winLength, 0) by {
          forall t | 0 <= t < winLength ensures vs[t] == Mark(p) {
            assert vs[..winLength][t] == needle[t];
          }
        }
      }
      if |vs| > 0 {
        IncludesRepeat(vs[1..], p, winLength);
        if HasRun(vs[1..], p, winLength) {
          var j :| RunAt(vs[1..], p, winLength, j);
          assert RunAt(vs, p, winLength, j + 1) by {
            forall t | j + 1 <= t < j + 1 + winLength ensures vs[t] == Mark(p) {
              assert vs[1..][t - 1] == vs[t];
            }
          }
        }
      }
      if HasRun(vs, p, winLength) {
        var j :| RunAt(vs, p, winLength, j);
        if j == 0 {
          assert vs[..winLength] == needle;
        } else {
          assert RunAt(vs[1..], p, winLength, j - 1);
        }
      }
    }
  }

  // ---------------------------------------------------------------------
  // The rank of a win

  /** The indices on `line`, in line order, whose cell holds `p`'s mark. */
  ghost function Rank(b: Grid, size: nat, line: Line, p: Player): seq<int>
    requires IsBoard(b, size) && LineOk(line, size)
    decreases |line|
  {
    if |line| == 0 then []
    else
      var last := line[|line| - 1];
      Rank(b, size, line[..|line| - 1], p) + (if At(b, size, last) == Mark(p) then [last] else [])
  }

  /** The rank is exactly the cells of the line that hold `p`'s mark. */
  lemma {:induction false} RankMembers(b: Grid, size: nat, line: Line, p: Player, j: int)
    requires IsBoard(b, size) && LineOk(line, size)
    ensures j in Rank(b, size, line, p) <==> j in line && 0 <= j < size * size && At(b, size, j) == Mark(p)
    decreases |line|
  {
    if |line| > 0 {
      var init := line[..|line| - 1];
      RankMembers(b, size, init, p, j);
      assert line == init + [line[|line| - 1]];
    }
  }

  /** The rank keeps line order: the rank of two consecutive pieces of a
      line is the rank of the first followed by the rank of the second. */
  lemma {:induction false} RankAppend(b: Grid, size: nat, u: Line, w: Line, p: Player)
    requires IsBoard(b, size) && LineOk(u, size) && LineOk(w, size)
    ensures LineOk(u + w, size)
    ensures Rank(b, size, u + w, p) == Rank(b, size, u, p) + Rank(b, size, w, p)
    decreases |w|
  {
    assert LineOk(u + w, size) by {
      forall t | 0 <= t < |u + w| ensures 0 <= (u + w)[t] < size * size {
        if t >= |u| {
          assert (u + w)[t] == w[t - |u|];
        }
      }
    }
    if |w| > 0 {
      var w' := w[..|w| - 1];
      assert (u + w)[..|u + w| - 1] == u + w';
      RankAppend(b, size, u, w', p);
    } else {
      assert u + w == u;
    }
  }

  /** Positions j .. m - 1 of `line` all hold `p`'s mark, so the rank of the
      prefix up to m is at least m - j long. */
  lemma {:induction false} RankOfWindow(b: Grid, size: nat, line: Line, p: Player, j: int, m: int)
    requires IsBoard(b, size) && LineOk(line, size) && 0 <= j <= m <= |line|
    requires forall t :: j <= t < m ==> At(b, size, line[t]) == Mark(p)
    ensures LineOk(line[..m], size) && |Rank(b, size, line[..m], p)| >= m - j
    decreases m
  {
    if m > j {
      RankOfWindow(b, size, line, p, j, m - 1);
      assert line[..m][..m - 1] == line[..m - 1];
    }
  }

  /** A line with a run of `winLength` marks of `p` has a rank of at least
      `winLength` cells. */
  lemma RankOfRun(b: Grid, size: nat, line: Line, p: Player, winLength: nat)
    requires IsBoard(b, size) && LineOk(line, size)
    requires HasRun(Values(b, size, line), p, winLength)
    ensures |Rank(b, size, line, p)| >= winLength
  {
    var vs := Values(b, size, line);
    var j :| RunAt(vs, p, winLength, j);
    var m := j + winLength;
    forall t | j <= t < m ensures At(b, size, line[t]) == Mark(p) {
      assert vs[t] == Mark(p);
    }
    RankOfWindow(b, size, line, p, j, m);
    assert line == line[..m] + line[m..];
    RankAppend(b, size, line[..m], line[m..], p);
  }

  // ---------------------------------------------------------------------
  // The yielded items

  /** What the player loop yields for one line, for the players in `ps`. */
  ghost function LineWinsFor(b: Grid, size: nat, line: Line, winLength: nat, ps: seq<Player>): seq<Conclusion>
    requires IsBoard(b, size) && LineOk(line, size)
    decreases |ps|
  {
    if |ps| == 0 then []
    else
      var p := ps[|ps| - 1];
      LineWinsFor(b, size, line, winLength, ps[..|ps| - 1]) +
      (if HasRun(Values(b, size, line), p, winLength) then [Win(p, Rank(b, size, line, p))] else [])
  }

  /** What `evalWinState` yields for one line: a cross win, then a ring win. */
  ghost function LineWins(b: Grid, size: nat, line: Line, winLength: nat): seq<Conclusion>
    requires IsBoard(b, size) && LineOk(line, size)
  {
    LineWinsFor(b, size, line, winLength, Players)
  }

  /** The wins `evalWinState` yields for `lines`, in line order. */
  ghost function Wins(b: Grid, size: nat, lines: seq<Line>, winLength: nat): seq<Conclusion>
    requires IsBoard(b, size) && InRange(lines, size)
    decreases |lines|
  {
    if |lines| == 0 then []
    else
      Wins(b, size, lines[..|lines| - 1], winLength) + LineWins(b, size, lines[|lines| - 1], winLength)
  }

  /** Some index on some line is an empty cell: the nested `some` of the
      draw test (game.js:273-278). */
  ghost predicate AnyEmpty(b: Grid, size: nat, lines: seq<Line>)
    requires IsBoard(b, size) && InRange(lines, size)
  {
    exists l, t :: 0 <= l < |lines| && 0 <= t < |lines[l]| && At(b, size, lines[l][t]) == Empty
  }

  /** The closing item: `{}` while a cell is empty, else `{player: 0}`. */
  ghost function FinalItem(b: Grid, size: nat, lines: seq<Line>): Conclusion
    requires IsBoard(b, size) && InRange(lines, size)
  {
    if AnyEmpty(b, size, lines) then Open else Tie
  }

  /** Everything `evalWinState` yields, in order. */
  ghost function Conclusions(b: Grid, size: nat, lines: seq<Line>, winLength: nat): seq<Conclusion>
    requires IsBoard(b, size) && InRange(lines, size)
  {
    Wins(b, size, lines, winLength) + [FinalItem(b, size, lines)]
  }

  /** The player whose win `evalWinState` yields first for `line`, if any. */
  ghost function LineWinner(b: Grid, size: nat, line: Line, winLength: nat): Option<Player>
    requires IsBoard(b, size) && LineOk(line, size)
  {
    var vs := Values(b, size, line);
    if HasRun(vs, Cross, winLength) then Some(Cross)
    else if HasRun(vs, Ring, winLength) then Some(Ring)
    else None
  }

  /** The first line of `lines` that holds a run of either player, if any. */
  ghost function FirstWinningLine(b: Grid, size: nat, lines: seq<Line>, winLength: nat): (r: Option<int>)
    requires IsBoard(b, size) && InRange(lines, size)
    ensures r.Some? ==> 0 <= r.value < |lines| && LineWinner(b, size, lines[r.value], winLength).Some?
    ensures r.Some? ==> forall l :: 0 <= l < r.value ==> LineWinner(b, size, lines[l], winLength).None?
    ensures r.None? ==> forall l :: 0 <= l < |lines| ==> LineWinner(b, size, lines[l], winLength).None?
    decreases |lines|
  {
    if |lines| == 0 then None
    else
      var init := lines[..|lines| - 1];
      var r := FirstWinningLine(b, size, init, winLength);
      if r.Some? then r
      else if LineWinner(b, size, lines[|lines| - 1], winLength).Some? then Some(|lines| - 1)
      else None
  }

  /** A board is concluded when some line holds a run or no cell is empty. */
  ghost predicate Concluded(b: Grid, size: nat, lines: seq<Line>, winLength: nat)
    requires IsBoard(b, size) && InRange(lines, size)
  {
    FirstWinningLine(b, size, lines, winLength).Some? || Full(b, size)
  }

  // ---------------------------------------------------------------------
  // Properties of the yielded items

  /** The player loop runs cross, then ring. */
  lemma LineWinsUnfold(b: Grid, size: nat, line: Line, winLength: nat)
    requires IsBoard(b, size) && LineOk(line, size)
    ensures var vs := Values(b, size, line);
      LineWins(b, size, line, winLength) ==
        (if HasRun(vs, Cross, winLength) then [Win(Cross, Rank(b, size, line, Cross))] else []) +
        (if HasRun(vs, Ring, winLength) then [Win(Ring, Rank(b, size, line, Ring))] else [])
  {
    assert Players[..1][..0] == [];
    assert Players[..1] == [Cross];
    assert Players[..|Players| - 1] == Players[..1];
    assert LineWinsFor(b, size, line, winLength, Players[..0]) == [];
  }

  /** One line yields a win for `p` exactly when it holds a run of `p`, and
      that win carries the line's rank for `p`; it yields nothing else. */
  lemma LineWinsMembers(b: Grid, size: nat, line: Line, winLength: nat, c: Conclusion)
    requires IsBoard(b, size) && LineOk(line, size)
    ensures c in LineWins(b, size, line, winLength) <==>
      c.Win? && HasRun(Values(b, size, line), c.player, winLength) && c.rank == Rank(b, size, line, c.player)
  {
    LineWinsUnfold(b, size, line, winLength);
    var vs := Values(b, size, line);
    var crossWin := Win(Cross, Rank(b, size, line, Cross));
    var ringWin := Win(Ring, Rank(b, size, line, Ring));
    var a := if HasRun(vs, Cross, winLength) then [crossWin] else [];
    var r := if HasRun(vs, Ring, winLength) then [ringWin] else [];
    assert LineWins(b, size, line, winLength) == a + r;
    assert c in a + r <==> c in a || c in r;
    assert c in a <==> c == crossWin && HasRun(vs, Cross, winLength);
    assert c in r <==> c == ringWin && HasRun(vs, Ring, winLength);
    if c.Win? {
      var p := c.player;
      assert c == Win(p, c.rank);
      if p == Cross {
        assert c !in r;
      } else {
        assert c !in a;
      }
    } else {
      assert c !in a && c !in r;
    }
  }

  /** `evalWinState` yields `Win(p, r)` before its closing item exactly when
      some line holds a run of `p` and `r` is that line's rank for `p`. */
  lemma {:induction false} WinsMembers(b: Grid, size: nat, lines: seq<Line>, winLength: nat, p: Player, r: seq<int>)
    requires IsBoard(b, size) && InRange(lines, size)
    ensures Win(p, r) in Wins(b, size, lines, winLength) <==>
      exists l :: 0 <= l < |lines| && HasRun(Values(b, size, lines[l]), p, winLength) && r == Rank(b, size, lines[l], p)
    decreases |lines|
  {
    if |lines| > 0 {
      var n := |lines| - 1;
      var init := lines[..n];
      WinsMembers(b, size, init, winLength, p, r);
      LineWinsMembers(b, size, lines[n], winLength, Win(p, r));
      if Win(p, r) in Wins(b, size, init, winLength) {
        var l :| 0 <= l < |init| && HasRun(Values(b, size, init[l]), p, winLength) && r == Rank(b, size, init[l], p);
        assert init[l] == lines[l];
      }
      if exists l :: 0 <= l < |lines| && HasRun(Values(b, size, lines[l]), p, winLength) && r == Rank(b, size, lines[l], p) {
        var l :| 0 <= l < |lines| && HasRun(Values(b, size, lines[l]), p, winLength) && r == Rank(b, size, lines[l], p);
        if l < n {
          assert init[l] == lines[l];
        }
      }
    }
  }

  /** Every item before the closing one is a win; there are none exactly when
      no line holds a run; otherwise the first is the win of the first
      winning line, for cross when that line holds runs of both players. */
  lemma {:induction false} WinsOrder(b: Grid, size: nat, lines: seq<Line>, winLength: nat)
    requires IsBoard(b, size) && InRange(lines, size)
    ensures forall c :: c in Wins(b, size, lines, winLength) ==> c.Win?
    ensures Wins(b, size, lines, winLength) == [] <==> FirstWinningLine(b, size, lines, winLength).None?
    ensures FirstWinningLine(b, size, lines, winLength).Some? ==>
      var l := FirstWinningLine(b, size, lines, winLength).value;
      var p := LineWinner(b, size, lines[l], winLength).value;
      Wins(b, size, lines, winLength)[0] == Win(p, Rank(b, size, lines[l], p))
    decreases |lines|
  {
    if |lines| > 0 {
      var n := |lines| - 1;
      var init := lines[..n];
      WinsOrder(b, size, init, winLength);
      forall c | c in LineWins(b, size, lines[n], winLength) ensures c.Win? {
        LineWinsMembers(b, size, lines[n], winLength, c);
      }
      if FirstWinningLine(b, size, init, winLength).None? {
        var line := lines[n];
        var w := Wins(b, size, lines, winLength);
        assert w == LineWins(b, size, line, winLength);
        var vs := Values(b, size, line);
        LineWinsUnfold(b, size, line, winLength);
        if HasRun(vs, Cross, winLength) {
          assert w[0] == Win(Cross, Rank(b, size, line, Cross));
        } else if HasRun(vs, Ring, winLength) {
          assert w[0] == Win(Ring, Rank(b, size, line, Ring));
        } else {
          assert w == [];
        }
      }
    }
  }

  /** Cell `j` appears on some line of `lines`. */
  ghost predicate OnSomeLine(lines: seq<Line>, j: int) {
    exists l, t :: 0 <= l < |lines| && 0 <= t < |lines[l]| && lines[l][t] == j
  }

  /** When every cell lies on some line, the closing item is the draw
      marker exactly when no cell is empty. */
  lemma FinalItemFull(b: Grid, size: nat, lines: seq<Line>)
    requires IsBoard(b, size) && InRange(lines, size)
    requires forall j :: 0 <= j < size * size ==> OnSomeLine(lines, j)
    ensures FinalItem(b, size, lines) == if Full(b, size) then Tie else Open
  {
    if !Full(b, size) {
      var j :| 0 <= j < size * size && At(b, size, j) == Empty;
      assert OnSomeLine(lines, j);
      var l, t :| 0 <= l < |lines| && 0 <= t < |lines[l]| && lines[l][t] == j;
      assert At(b, size, lines[l][t]) == Empty;
    }
    if AnyEmpty(b, size, lines) {
      var l, t :| 0 <= l < |lines| && 0 <= t < |lines[l]| && At(b, size, lines[l][t]) == Empty;
      assert 0 <= lines[l][t] < size * size;
    }
  }

  /** With the tables of game.js, the closing item is the draw marker exactly
      when no cell of the board is empty. */
  lemma FinalItemOnAllLines(b: Grid, size: nat)
    requires size >= 1 && IsBoard(b, size)
    ensures InRange(AllLines(size), size)
    ensures FinalItem(b, size, AllLines(size)) == if Full(b, size) then Tie else Open
  {
    AllLinesInRange(size);
    forall j | 0 <= j < size * size
      ensures OnSomeLine(AllLines(size), j)
    {
      CellOnItsRow(size, j);
      IndexOfCoord(j, size);
      assert AllLines(size)[Y(j, size)][X(j, size)] == j;
    }
    FinalItemFull(b, size, AllLines(size));
  }

  /** `evalWinState` yields its wins first and its closing item last; some
      yielded item is decided (a win or the draw marker) exactly when the
      board is concluded. */
  lemma ConclusionsDecided(b: Grid, size: nat, winLength: nat)
    requires size >= 1 && IsBoard(b, size)
    ensures InRange(AllLines(size), size)
    ensures var cs := Conclusions(b, size, AllLines(size), winLength);
      && cs[..|cs| - 1] == Wins(b, size, AllLines(size), winLength)
      && cs[|cs| - 1] == (if Full(b, size) then Tie else Open)
      && ((exists j :: 0 <= j < |cs| && Decided(cs[j])) <==> Concluded(b, size, AllLines(size), winLength))
  {
    FinalItemOnAllLines(b, size);
    var lines := AllLines(size);
    var cs := Conclusions(b, size, lines, winLength);
    var w := Wins(b, size, lines, winLength);
    WinsOrder(b, size, lines, winLength);
    assert cs[..|cs| - 1] == w;
    if w != [] {
      assert Decided(cs[0]);
    } else if Full(b, size) {
      assert Decided(cs[0]);
    }
  }

  // ---------------------------------------------------------------------
  // The evaluator itself

  /** The indices of the (index, cell) pairs whose cell is `p`'s mark, in
      their order: the rank `evalWinState` yields from `winningRank`
      (game.js:266-267). */
  function Pick(pairs: seq<(int, Cell)>, p: Player): seq<int>
  {
    if |pairs| == 0 then []
    else
      var last := pairs[|pairs| - 1];
      Pick(pairs[..|pairs| - 1], p) + (if last.1 == Mark(p) then [last.0] else [])
  }

  /** `evalWinState(board)` with `flatRanks` passed in as `lines`: walks every
      line, maps it to its cell values while collecting the
      non-empty cells into `winningRank`, yields a win per player whose run
      the values include, and closes with the draw test. */
  method EvalWinState(board: Grid, ghost size: nat, lines: seq<Line>, winLength: nat) returns (cs: seq<Conclusion>)
    requires IsBoard(board, size) && InRange(lines, size)
    ensures cs == Conclusions(board, size, lines, winLength)
  {
    cs := [];
    var l := 0;
    while l < |lines|
      invariant 0 <= l <= |lines|
      invariant cs == Wins(board, size, lines[..l], winLength)
    {
      var rank := lines[l];
      assert LineOk(rank, size);
      var winningRank: seq<(int, Cell)> := [];
      var mappedRank: seq<Cell> := [];
      var t := 0;
      while t < |rank|
        invariant 0 <= t <= |rank|
        invariant LineOk(rank[..t], size)
        invariant mappedRank == Values(board, size, rank[..t])
        invariant forall p :: Pick(winningRank, p) == Rank(board, size, rank[..t], p)
      {
        var xy := Get2DFrom1D(rank[t], board, size);
        var (x, y) := xy.value;
        var v := board[x][y];
        assert v == At(board, size, rank[t]);
        assert rank[..t + 1][..t] == rank[..t];
        if v != Empty {
          assert (winningRank + [(rank[t], v)])[..|winningRank|] == winningRank;
          winningRank := winningRank + [(rank[t], v)];
        }
        mappedRank := mappedRank + [v];
        t := t + 1;
      }
      assert rank[..t] == rank;
      ghost var before := cs;
      var q := 0;
      while q < |Players|
        invariant 0 <= q <= |Players|
        invariant cs == before + LineWinsFor(board, size, rank, winLength, Players[..q])
      {
        var player := Players[q];
        var playerRank := Repeat(player, winLength);
        IncludesRepeat(mappedRank, player, winLength);
        assert Players[..q + 1][..q] == Players[..q];
        if Includes(mappedRank, playerRank) {
          cs := cs + [Win(player, Pick(winningRank, player))];
        }
        q := q + 1;
      }
      assert Players[..q] == Players;
      assert lines[..l + 1][..l] == lines[..l];
      l := l + 1;
    }
    assert lines[..l] == lines;

    var empty := false;
    l := 0;
    while l < |lines| && !empty
      invariant 0 <= l <= |lines|
      invariant empty ==> AnyEmpty(board, size, lines)
      invariant !empty ==> forall l', t :: 0 <= l' < l && 0 <= t < |lines[l']| ==> At(board, size, lines[l'][t]) != Empty
    {
      var rank := lines[l];
      var t := 0;
      while t < |rank| && !empty
        invariant 0 <= t <= |rank|
        invariant empty ==> AnyEmpty(board, size, lines)
        invariant !empty ==> forall t' :: 0 <= t' < t ==> At(board, size, rank[t']) != Empty
      {
        var xy := Get2DFrom1D(rank[t], board, size);
        var (x, y) := xy.value;
        if board[x][y] == Empty {
          assert At(board, size, lines[l][t]) == Empty;
          empty := true;
        }
        t := t + 1;
      }
      l := l + 1;
    }
    cs := cs + [if empty then Open else Tie];
  }
}
