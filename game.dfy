/** The move/turn state machine of game.js: the module-level `board` and
    `turn`, one click (`mutateBoard(makeMove(turn, board, i))`), and the
    status message the click leaves on screen. */
module GameState {
  import opened BoardModel
  import opened LineIndex
  import opened WinState

  /** What the status element shows after a click. */
  datatype Status = Blank | NewGame(toMove: Player) | Won(winner: Player) | Tied

  /** The exact text game.js writes for each status. */
  function StatusText(s: Status): string {
    match s
    case Blank => ""
    case NewGame(p) => if p == Cross then "New game, cross to move" else "New game, ring to move"
    case Won(p) =>
      if p == Cross then "Cross wins! Click anywhere to play again."
      else "Ring wins! Click anywhere to play again."
    case Tied => "It's a tie! Click anywhere to play again."
  }

  /** `toggleTurn`: the other player moves next. */
  function Toggle(turn: Player): (r: Player)
    ensures r != turn
  {
    if turn == Cross then Ring else Cross
  }

  /** The loop of `mutateBoard` over the conclusions: a decided conclusion
      puts up its message, and a win also stops the loop, so the first win's
      message stands; with no win, the draw marker's message does. */
  method Announce(conclusions: seq<Conclusion>) returns (s: Option<Status>)
    ensures (exists j :: 0 <= j < |conclusions| && conclusions[j].Win?) ==>
      exists j :: 0 <= j < |conclusions| && conclusions[j].Win? &&
        (forall t :: 0 <= t < j ==> !conclusions[t].Win?) && s == Some(Won(conclusions[j].player))
    ensures (forall j :: 0 <= j < |conclusions| ==> !conclusions[j].Win?) ==>
      s == if exists j :: 0 <= j < |conclusions| && conclusions[j].Tie? then Some(Tied) else None
  {
    s := None;
    var j := 0;
    while j < |conclusions|
      invariant 0 <= j <= |conclusions|
      invariant forall t :: 0 <= t < j ==> !conclusions[t].Win?
      invariant s == if exists t :: 0 <= t < j && conclusions[t].Tie? then Some(Tied) else None
    {
      var c := conclusions[j];
      if Decided(c) {
        s := Some(if c.Win? then Won(c.player) else Tied);
        if c.Win? {
          break;
        }
      }
      j := j + 1;
    }
  }

  /** The message `mutateBoard` puts up for board `b`, if any: the winner of
      the first winning line, else the tie when no cell is empty. */
  ghost function Verdict(b: Grid, size: nat, lines: seq<Line>, winLength: nat): Option<Status>
    requires IsBoard(b, size) && InRange(lines, size)
  {
    var first := FirstWinningLine(b, size, lines, winLength);
    if first.Some? then Some(Won(LineWinner(b, size, lines[first.value], winLength).value))
    else if Full(b, size) then Some(Tied)
    else None
  }

  /** A fresh board is not concluded and gets no message. */
  lemma FreshUndecided(size: nat, winLength: nat)
    requires size >= 1 && winLength >= 1
    ensures InRange(AllLines(size), size)
    ensures !Concluded(FreshBoard(size), size, AllLines(size), winLength)
    ensures Verdict(FreshBoard(size), size, AllLines(size), winLength) == None
  {
    AllLinesInRange(size);
    var b, lines := FreshBoard(size), AllLines(size);
    forall l | 0 <= l < |lines| ensures LineWinner(b, size, lines[l], winLength).None? {
      var vs := Values(b, size, lines[l]);
      forall p: Player, j | 0 <= j < |vs| ensures !RunAt(vs, p, winLength, j) {
        assert vs[j] == Empty;
      }
    }
    assert At(b, size, 0) == Empty;
  }

  /** The board and turn of one game, with the line tables computed once. */
  class Game {
    /** `size`: the board is size×size. */
    const size: nat
    /** `winLength`: marks in a row needed to win. */
    const winLength: nat
    /** `flatRanks`: rows, columns and diagonals of the board. */
    const lines: seq<Line>
    /** `board`: assigned only by MutateBoard. */
    var board: Grid
    /** `turn`: assigned only by MakeMove, through `mutateTurn`. */
    var turn: Player

    ghost predicate Valid()
      reads this
    {
      size >= 1 && winLength >= 1 && lines == AllLines(size) && InRange(lines, size) && IsBoard(board, size)
    }

    /** The player to move has at most as many marks on the board as the
        other player, and the other player at most one more. */
    ghost predicate Balanced()
      reads this
    {
      var mover, other := Count(board, Mark(turn)), Count(board, Mark(Toggle(turn)));
      mover <= other <= mover + 1
    }

    /** `game()`: a fresh board, cross to move. */
    constructor (size: nat, winLength: nat)
      requires size >= 1 && winLength >= 1
      ensures Valid() && Balanced()
      ensures this.size == size && this.winLength == winLength
      ensures board == FreshBoard(size) && turn == Cross
    {
      this.size := size;
      this.winLength := winLength;
      lines := AllLines(size);
      board := FreshBoard(size);
      turn := Cross;
      new;
      AllLinesInRange(size);
      CountFresh(size, Mark(Cross));
      CountFresh(size, Mark(Ring));
    }

    /** `makeMove(player, b, i)`: a concluded board gives way to a fresh one
        (the clicked cell is ignored and the turn kept); otherwise an occupied
        cell leaves everything as it is, and an empty one receives `player`'s
        mark while the turn passes to the other player. */
    method MakeMove(player: Player, b: Grid, i: int) returns (newBoard: Grid, shown: Status)
      requires Valid() && IsBoard(b, size) && 0 <= i < size * size
      modifies this`turn
      ensures Valid() && IsBoard(newBoard, size)
      ensures Concluded(b, size, lines, winLength) ==>
        newBoard == FreshBoard(size) && turn == old(turn) && shown == NewGame(old(turn))
      ensures !Concluded(b, size, lines, winLength) && At(b, size, i) != Empty ==>
        newBoard == b && turn == old(turn) && shown == Blank
      ensures !Concluded(b, size, lines, winLength) && At(b, size, i) == Empty ==>
        newBoard == Place(b, size, i, player) && turn == Toggle(old(turn)) && shown == Blank
    {
      shown := Blank;
      newBoard := b;
      var conclusions := EvalWinState(newBoard, size, lines, winLength);
      ConclusionsDecided(b, size, winLength);
      var j := 0;
      while j < |conclusions|
        invariant 0 <= j <= |conclusions|
        invariant forall t :: 0 <= t < j ==> !Decided(conclusions[t])
      {
        if Decided(conclusions[j]) {
          shown := NewGame(turn);
          newBoard := FreshBoard(size);
          return;
        }
        j := j + 1;
      }
      var xy := Get2DFrom1D(i, b, size);
      var (x, y) := xy.value;
      if b[x][y] != Empty {
        return;
      }
      newBoard := newBoard[x := newBoard[x][y := Mark(player)]];
      turn := Toggle(turn);
    }

    /** `mutateBoard(newBoard)`: install the board and put up the message
        of its first win, or of the tie. */
    method MutateBoard(newBoard: Grid) returns (announced: Option<Status>)
      requires Valid() && IsBoard(newBoard, size)
      modifies this`board
      ensures Valid() && board == newBoard
      ensures announced == Verdict(newBoard, size, lines, winLength)
    {
      board := newBoard;
      var conclusions := EvalWinState(newBoard, size, lines, winLength);
      announced := Announce(conclusions);
      ConclusionsDecided(newBoard, size, winLength);
      WinsOrder(newBoard, size, lines, winLength);
      var wins := Wins(newBoard, size, lines, winLength);
      if wins == [] {
        assert conclusions == [FinalItem(newBoard, size, lines)];
      } else {
        assert conclusions[0] == wins[0];
        assert conclusions[0].Win?;
      }
    }

    /** One click on cell `i`: the mover's move is made and the resulting
        board handed to mutateBoard (game.js:287). */
    method Click(i: int) returns (shown: Status)
      requires Valid() && 0 <= i < size * size
      modifies this
      ensures Valid()
      ensures old(Balanced()) ==> Balanced()
      ensures Concluded(old(board), size, lines, winLength) ==>
        board == FreshBoard(size) && turn == old(turn) && shown == NewGame(old(turn))
      ensures !Concluded(old(board), size, lines, winLength) && At(old(board), size, i) != Empty ==>
        board == old(board) && turn == old(turn) && shown == Blank
      ensures !Concluded(old(board), size, lines, winLength) && At(old(board), size, i) == Empty ==>
        board == Place(old(board), size, i, old(turn)) && turn == Toggle(old(turn)) &&
        shown == match Verdict(board, size, lines, winLength) case Some(s) => s case None => Blank
      ensures !Concluded(old(board), size, lines, winLength) ==>
        forall j :: 0 <= j < size * size && At(old(board), size, j) != Empty ==>
          At(board, size, j) == At(old(board), size, j)
    {
      ghost var b0, t0 := board, turn;
      var newBoard, s := MakeMove(turn, board, i);
      var announced := MutateBoard(newBoard);
      shown := if announced.Some? then announced.value else s;
      if Concluded(b0, size, lines, winLength) {
        FreshUndecided(size, winLength);
        CountFresh(size, Mark(Cross));
        CountFresh(size, Mark(Ring));
      } else if At(b0, size, i) == Empty {
        CountPlace(b0, size, i, t0, t0);
        CountPlace(b0, size, i, t0, Toggle(t0));
        forall j | 0 <= j < size * size && At(b0, size, j) != Empty
          ensures At(board, size, j) == At(b0, size, j)
        {
          PlaceChangesOnlyTarget(b0, size, i, t0, j);
        }
      }
    }
  }
}
