/**
 * The state of one game screen and the transitions the screen's handlers
 * perform on it: a click on a square, the restart button and the two name
 * fields. Every transition replaces the whole state by a new value.
 */
module Game {
  import opened Board

  /** The range of a 32-bit signed integer, the width of the scores. */
  newtype int32 = x: int | -0x8000_0000 <= x < 0x8000_0000

  /** A 32-bit increment: one more, wrapping from the largest value to the smallest. */
  function Inc32(x: int32): (r: int32)
    ensures (r as int - x as int - 1) % 0x1_0000_0000 == 0
    ensures x < 0x7fff_ffff ==> r as int == x as int + 1
  {
    if x == 0x7fff_ffff then -0x8000_0000 else x + 1
  }

  /** Everything the screen shows; each field has the value a new game starts with. */
  datatype GameState = GameState(
    board: seq<Cell> := EmptyBoard(),
    currentPlayer: Player := Player.X,
    gameResult: GameResult := InProgress,
    playerXName: string := "Player X",
    playerOName: string := "Player O",
    playerXScore: int32 := 0,
    playerOScore: int32 := 0)

  /** The state a screen opens with: an empty board, X to move, default names, no points. */
  function NewGame(): (s: GameState)
    ensures IsBoard(s.board) && forall k :: 0 <= k < |s.board| ==> s.board[k] == Cell.Empty
    ensures s.currentPlayer == Player.X && s.gameResult == InProgress
    ensures s.playerXName == "Player X" && s.playerOName == "Player O"
    ensures s.playerXScore == 0 && s.playerOScore == 0
  {
    GameState()
  }

  /** A click on square `index` is taken only while the game runs and the square is empty. */
  predicate Accepts(s: GameState, index: CellIndex)
    requires IsBoard(s.board)
  {
    s.gameResult == InProgress && s.board[index] == Cell.Empty
  }

  /**
   * A click on square `index`. An accepted click writes the mover's mark,
   * stores the result of the board as it was BEFORE that mark, credits the
   * winner of that result with a point and passes the turn, whatever the
   * result. Any other click changes nothing.
   */
  function ApplyMove(s: GameState, index: CellIndex): (r: GameState)
    requires IsBoard(s.board)
    ensures IsBoard(r.board)
    ensures r == s <==> !Accepts(s, index)
    ensures Accepts(s, index) ==>
      r.board[index] == s.currentPlayer.Mark() &&
      (forall k :: 0 <= k < |s.board| && k != index ==> r.board[k] == s.board[k])
    ensures Accepts(s, index) ==> r.gameResult == CheckGameResult(s.board)
    ensures Accepts(s, index) ==> r.currentPlayer == s.currentPlayer.Other()
    ensures r.playerXName == s.playerXName && r.playerOName == s.playerOName
    ensures Accepts(s, index) && r.gameResult == PlayerXWins ==>
      r.playerXScore == Inc32(s.playerXScore) && r.playerOScore == s.playerOScore
    ensures Accepts(s, index) && r.gameResult == PlayerOWins ==>
      r.playerOScore == Inc32(s.playerOScore) && r.playerXScore == s.playerXScore
    ensures r.gameResult != PlayerXWins && r.gameResult != PlayerOWins ==>
      r.playerXScore == s.playerXScore && r.playerOScore == s.playerOScore
  {
    if Accepts(s, index) then
      var result := CheckGameResult(s.board);
      GameState(
        board := s.board[index := s.currentPlayer.Mark()],
        currentPlayer := s.currentPlayer.Other(),
        gameResult := result,
        playerXName := s.playerXName,
        playerOName := s.playerOName,
        playerXScore := if result == PlayerXWins then Inc32(s.playerXScore) else s.playerXScore,
        playerOScore := if result == PlayerOWins then Inc32(s.playerOScore) else s.playerOScore)
    else
      s
  }

  /**
   * The restart button: a new game for the same two players. Only the names
   * are carried over, so both scores go back to 0.
   */
  function Restart(s: GameState): (r: GameState)
    ensures r.playerXName == s.playerXName && r.playerOName == s.playerOName
    ensures IsBoard(r.board) && forall k :: 0 <= k < |r.board| ==> r.board[k] == Cell.Empty
    ensures r.currentPlayer == Player.X && r.gameResult == InProgress
    ensures r.playerXScore == 0 && r.playerOScore == 0
  {
    GameState(playerXName := s.playerXName, playerOName := s.playerOName)
  }

  /** An edit of X's name field: that name and nothing else changes. */
  function ChangeXName(s: GameState, name: string): (r: GameState)
    ensures r.playerXName == name
    ensures r.(playerXName := s.playerXName) == s
  {
    s.(playerXName := name)
  }

  /** An edit of O's name field: that name and nothing else changes. */
  function ChangeOName(s: GameState, name: string): (r: GameState)
    ensures r.playerOName == name
    ensures r.(playerOName := s.playerOName) == s
  {
    s.(playerOName := name)
  }

  /** The inputs the screen passes on, one at a time. */
  datatype Event =
    | CellClicked(index: CellIndex)
    | RestartClicked
    | XNameChanged(name: string)
    | ONameChanged(name: string)

  /** The state after one input. */
  function Step(s: GameState, e: Event): (r: GameState)
    requires IsBoard(s.board)
    ensures IsBoard(r.board)
  {
    match e
    case CellClicked(index) => ApplyMove(s, index)
    case RestartClicked => Restart(s)
    case XNameChanged(name) => ChangeXName(s, name)
    case ONameChanged(name) => ChangeOName(s, name)
  }

  /** The state after a sequence of inputs, taken in order. */
  function Run(s: GameState, events: seq<Event>): (r: GameState)
    requires IsBoard(s.board)
    ensures IsBoard(r.board)
    decreases |events|
  {
    if events == [] then s else Run(Step(s, events[0]), events[1..])
  }

  /** Some pattern is filled with `c`. */
  predicate HasLine(board: seq<Cell>, c: Cell)
    requires IsBoard(board)
  {
    exists j: nat :: j < |WinPatterns| && Uniform(board, WinPatterns[j], c)
  }

  /**
   * What holds of every state the screen can reach: nine squares; X has
   * placed as many marks as O, or one more when it is O's turn; a score is 1
   * exactly when the stored result is that player's win and 0 otherwise; a
   * stored win is backed by a line of the winner's marks; and the stored
   * result is never a draw.
   */
  predicate Inv(s: GameState)
  {
    IsBoard(s.board) &&
    CountCells(s.board, Cell.X) ==
      CountCells(s.board, Cell.O) + (if s.currentPlayer == Player.O then 1 else 0) &&
    s.playerXScore == (if s.gameResult == PlayerXWins then 1 else 0) &&
    s.playerOScore == (if s.gameResult == PlayerOWins then 1 else 0) &&
    (s.gameResult == PlayerXWins ==> HasLine(s.board, Cell.X)) &&
    (s.gameResult == PlayerOWins ==> HasLine(s.board, Cell.O)) &&
    s.gameResult != Draw
  }

  /** A fresh state satisfies the invariant. */
  lemma InitialInv()
    ensures Inv(NewGame())
  {
    EmptyBoardCounts();
  }

  /** Writing into an empty square keeps every line already on the board. */
  lemma LineSurvivesWrite(board: seq<Cell>, index: CellIndex, mark: Cell, c: Cell)
    requires IsBoard(board) && board[index] == Cell.Empty && c != Cell.Empty
    requires HasLine(board, c)
    ensures HasLine(board[index := mark], c)
  {
    var j: nat :| j < |WinPatterns| && Uniform(board, WinPatterns[j], c);
    assert Uniform(board[index := mark], WinPatterns[j], c);
  }

  /** A stored win rests on a line in the board the result was read from. */
  lemma WinHasLine(board: seq<Cell>)
    requires IsBoard(board)
    ensures CheckGameResult(board) == PlayerXWins ==> HasLine(board, Cell.X)
    ensures CheckGameResult(board) == PlayerOWins ==> HasLine(board, Cell.O)
  {
  }

  /** A click keeps the invariant. */
  lemma ApplyMoveInv(s: GameState, index: CellIndex)
    requires Inv(s)
    ensures Inv(ApplyMove(s, index))
  {
    if Accepts(s, index) {
      var r := ApplyMove(s, index);
      var mark := s.currentPlayer.Mark();
      CountAfterWrite(s.board, index, mark, Cell.X);
      CountAfterWrite(s.board, index, mark, Cell.O);
      NotFullNeverDraw(s.board, index);
      WinHasLine(s.board);
      assert r.board == s.board[index := mark];
      if r.gameResult == PlayerXWins {
        LineSurvivesWrite(s.board, index, mark, Cell.X);
      }
      if r.gameResult == PlayerOWins {
        LineSurvivesWrite(s.board, index, mark, Cell.O);
      }
    }
  }

  /** Every input keeps the invariant. */
  lemma StepInv(s: GameState, e: Event)
    requires Inv(s)
    ensures Inv(Step(s, e))
  {
    match e
    case CellClicked(index) => ApplyMoveInv(s, index);
    case RestartClicked => InitialInv();
    case XNameChanged(_) =>
    case ONameChanged(_) =>
  }

  /** Any sequence of inputs keeps the invariant. */
  lemma {:induction false} RunInv(s: GameState, events: seq<Event>)
    requires Inv(s)
    ensures Inv(Run(s, events))
    decreases |events|
  {
    if events != [] {
      StepInv(s, events[0]);
      RunInv(Step(s, events[0]), events[1..]);
    }
  }

  /**
   * From a fresh screen, whatever the inputs: X has as many marks as O or
   * exactly one more, each score is 0 or 1 (so the 32-bit score never
   * wraps), and the stored result is never a draw.
   */
  lemma Reachable(events: seq<Event>)
    ensures var s := Run(NewGame(), events);
      var x, o := CountCells(s.board, Cell.X), CountCells(s.board, Cell.O);
      (x == o || x == o + 1) &&
      0 <= s.playerXScore <= 1 && 0 <= s.playerOScore <= 1 &&
      s.playerXScore + s.playerOScore <= 1 &&
      s.gameResult != Draw
  {
    InitialInv();
    RunInv(NewGame(), events);
  }

  /** Only clicks. */
  predicate AllClicks(events: seq<Event>)
  {
    forall k :: 0 <= k < |events| ==> events[k].CellClicked?
  }

  /**
   * Once a result is stored, or once the board is full, clicks are ignored
   * for good: a board filled by its ninth mark keeps the result it had
   * before that mark, because it is never evaluated again.
   */
  lemma {:induction false} ClicksIgnoredWhenOver(s: GameState, events: seq<Event>)
    requires IsBoard(s.board)
    requires s.gameResult != InProgress || Full(s.board)
    requires AllClicks(events)
    ensures Run(s, events) == s
    decreases |events|
  {
    if events != [] {
      assert Step(s, events[0]) == s;
      ClicksIgnoredWhenOver(s, events[1..]);
    }
  }

  /**
   * A click that fills the last empty square, on a board with no line yet,
   * stores InProgress, even when that mark completes a line; the board is
   * then full, so it is never evaluated again and no click changes the game
   * afterwards: the result stays InProgress and nobody scores.
   */
  lemma LastSquareNeverEvaluated(s: GameState, index: CellIndex, events: seq<Event>)
    requires IsBoard(s.board) && Accepts(s, index)
    requires NoLineFrom(s.board, 0)
    requires forall k :: 0 <= k < |s.board| && k != index ==> s.board[k] != Cell.Empty
    requires AllClicks(events)
    ensures var t := Run(ApplyMove(s, index), events);
      Full(t.board) && t.gameResult == InProgress &&
      t.playerXScore == s.playerXScore && t.playerOScore == s.playerOScore
  {
    var t := ApplyMove(s, index);
    assert Full(t.board);
    ClicksIgnoredWhenOver(t, events);
  }

  /**
   * An instance: X to move on the board X O O / O X X / O X _ takes the last
   * square, 8, and completes the diagonal 0-4-8. The new board evaluates to a
   * win for X, yet the click stores InProgress and gives X no point.
   */
  lemma DiagonalByLastMark(s: GameState)
    requires IsBoard(s.board)
    requires s.board[0] == Cell.X && s.board[1] == Cell.O && s.board[2] == Cell.O
    requires s.board[3] == Cell.O && s.board[4] == Cell.X && s.board[5] == Cell.X
    requires s.board[6] == Cell.O && s.board[7] == Cell.X && s.board[8] == Cell.Empty
    requires s.currentPlayer == Player.X && s.gameResult == InProgress
    ensures var t := ApplyMove(s, 8);
      t.board[0] == t.board[4] == t.board[8] == Cell.X && Full(t.board) &&
      CheckGameResult(t.board) == PlayerXWins &&
      t.gameResult == InProgress &&
      t.playerXScore == s.playerXScore && t.playerOScore == s.playerOScore
  {
    var t := QuietClick(s, 8);
    DiagonalWins(t.board);
  }

  /** The board X O O / O X X / O X X is full, and the diagonal 0-4-8 is its first line. */
  lemma DiagonalWins(b: seq<Cell>)
    requires IsBoard(b)
    requires b[0] == Cell.X && b[1] == Cell.O && b[2] == Cell.O
    requires b[3] == Cell.O && b[4] == Cell.X && b[5] == Cell.X
    requires b[6] == Cell.O && b[7] == Cell.X && b[8] == Cell.X
    ensures Full(b)
    ensures CheckGameResult(b) == PlayerXWins
  {
    forall m | 0 <= m < 6 ensures !IsLine(b, m) {
      assert b[WinPatterns[m][0]] != b[WinPatterns[m][1]];
    }
    assert FirstLineFrom(b, 0, 6) && Uniform(b, WinPatterns[6], Cell.X);
  }

  /** A game as it starts: empty board, X to move, result InProgress, no points. */
  predicate IsFresh(s: GameState)
  {
    IsBoard(s.board) && (forall k :: 0 <= k < |s.board| ==> s.board[k] == Cell.Empty) &&
    s.currentPlayer == Player.X && s.gameResult == InProgress &&
    s.playerXScore == 0 && s.playerOScore == 0
  }

  /** X on 0, O on 3, X on 1, O on 4, X on 2. */
  const TopRowClicks: seq<Event> :=
    [CellClicked(0), CellClicked(3), CellClicked(1), CellClicked(4), CellClicked(2)]

  /**
   * X takes the top row (squares 0, 1, 2) while O plays 3 and 4, in a fresh
   * game (a new screen or one just restarted). Right after X's mark on 2 the
   * stored result is still InProgress and X has no point; the next click, by
   * O on 5, stores X's win, gives X its point, and still passes the turn to X.
   */
  lemma WinRecordedOneClickLate(s0: GameState)
    requires IsFresh(s0)
    ensures var s := Run(s0, TopRowClicks);
      s.board[0] == s.board[1] == s.board[2] == Cell.X &&
      s.gameResult == InProgress && s.playerXScore == 0 &&
      var t := ApplyMove(s, 5);
      t.gameResult == PlayerXWins && t.playerXScore == 1 && t.playerOScore == 0 &&
      t.board[5] == Cell.O && t.currentPlayer == Player.X
  {
    RunTopRowClicks(s0);
    var s5 := TopRowOpening(s0);
    TopRowWinStored(s5);
  }

  /** The click after X completed the top row stores X's win. */
  lemma TopRowWinStored(s5: GameState)
    requires IsBoard(s5.board)
    requires s5.board[0] == s5.board[1] == s5.board[2] == Cell.X
    requires s5.board[3] == s5.board[4] == Cell.O
    requires forall k :: 5 <= k < 9 ==> s5.board[k] == Cell.Empty
    requires s5.gameResult == InProgress && s5.currentPlayer == Player.O
    requires s5.playerXScore == 0 && s5.playerOScore == 0
    ensures var t := ApplyMove(s5, 5);
      t.gameResult == PlayerXWins && t.playerXScore == 1 && t.playerOScore == 0 &&
      t.board[5] == Cell.O && t.currentPlayer == Player.X
  {
    assert FirstLineFrom(s5.board, 0, 0) && Uniform(s5.board, WinPatterns[0], Cell.X);
  }

  /** The five moves of `TopRowClicks` from a fresh game, and the state they leave. */
  lemma TopRowOpening(s0: GameState) returns (s5: GameState)
    requires IsFresh(s0)
    ensures s5 == ApplyMove(ApplyMove(ApplyMove(ApplyMove(ApplyMove(s0, 0), 3), 1), 4), 2)
    ensures IsBoard(s5.board)
    ensures s5.board[0] == s5.board[1] == s5.board[2] == Cell.X
    ensures s5.board[3] == s5.board[4] == Cell.O
    ensures forall k :: 5 <= k < 9 ==> s5.board[k] == Cell.Empty
    ensures s5.gameResult == InProgress && s5.currentPlayer == Player.O
    ensures s5.playerXScore == 0 && s5.playerOScore == 0
  {
    var s1 := OpeningClick(s0, 0);
    var s2 := OpeningClick(s1, 3);
    var s3 := OpeningClick(s2, 1);
    var s4 := OpeningClick(s3, 4);
    s5 := OpeningClick(s4, 2);
  }

  /**
   * One click of the opening, described square by square: the mover's mark
   * lands on `index`, no other square changes, the result stays InProgress,
   * the turn passes and the scores stay.
   */
  lemma OpeningClick(s: GameState, index: CellIndex) returns (t: GameState)
    requires IsBoard(s.board) && s.gameResult == InProgress && s.board[index] == Cell.Empty
    requires s.board[2] == Cell.Empty && s.board[5] == Cell.Empty && s.board[6] == Cell.Empty
    requires s.board[7] == Cell.Empty && s.board[8] == Cell.Empty
    ensures t == ApplyMove(s, index)
    ensures IsBoard(t.board) && t.board[index] == s.currentPlayer.Mark()
    ensures forall k :: 0 <= k < |t.board| && k != index ==> t.board[k] == s.board[k]
    ensures t.gameResult == InProgress && t.currentPlayer == s.currentPlayer.Other()
    ensures t.playerXScore == s.playerXScore && t.playerOScore == s.playerOScore
  {
    OpenSquaresKeepQuiet(s, index);
    t := ApplyMove(s, index);
  }

  /** The clicks of `TopRowClicks` are five moves, taken in order. */
  lemma RunTopRowClicks(s0: GameState)
    requires IsBoard(s0.board)
    ensures Run(s0, TopRowClicks) ==
      ApplyMove(ApplyMove(ApplyMove(ApplyMove(ApplyMove(s0, 0), 3), 1), 4), 2)
  {
    var es := TopRowClicks;
    var s1 := ApplyMove(s0, 0);
    var s2 := ApplyMove(s1, 3);
    var s3 := ApplyMove(s2, 1);
    var s4 := ApplyMove(s3, 4);
    var s5 := ApplyMove(s4, 2);
    assert Run(s5, es[5..]) == s5;
    assert Run(s4, es[4..]) == s5;
    assert Run(s3, es[3..]) == s5;
    assert Run(s2, es[2..]) == s5;
    assert Run(s1, es[1..]) == s5;
  }

  /**
   * Every row, column and diagonal passes through square 2, 5, 6, 7 or 8, so
   * while those are empty a click stores InProgress again.
   */
  lemma OpenSquaresKeepQuiet(s: GameState, index: CellIndex)
    requires IsBoard(s.board) && s.gameResult == InProgress && s.board[index] == Cell.Empty
    requires s.board[2] == Cell.Empty && s.board[5] == Cell.Empty && s.board[6] == Cell.Empty
    requires s.board[7] == Cell.Empty && s.board[8] == Cell.Empty
    ensures ApplyMove(s, index) ==
      s.(board := s.board[index := s.currentPlayer.Mark()], currentPlayer := s.currentPlayer.Other())
  {
    QuietMove(s, index);
  }

  /** `QuietMove`, described square by square. */
  lemma QuietClick(s: GameState, index: CellIndex) returns (t: GameState)
    requires IsBoard(s.board) && s.gameResult == InProgress && s.board[index] == Cell.Empty
    requires NoThreeInARow(s.board)
    ensures t == ApplyMove(s, index)
    ensures IsBoard(t.board) && t.board[index] == s.currentPlayer.Mark()
    ensures forall k :: 0 <= k < |t.board| && k != index ==> t.board[k] == s.board[k]
    ensures t.gameResult == InProgress && t.currentPlayer == s.currentPlayer.Other()
    ensures t.playerXScore == s.playerXScore && t.playerOScore == s.playerOScore
  {
    QuietMove(s, index);
    t := ApplyMove(s, index);
  }

  /** A click on a board with no three in a row and an empty square stores InProgress again. */
  lemma QuietMove(s: GameState, index: CellIndex)
    requires IsBoard(s.board) && s.gameResult == InProgress && s.board[index] == Cell.Empty
    requires NoThreeInARow(s.board)
    ensures ApplyMove(s, index) ==
      s.(board := s.board[index := s.currentPlayer.Mark()], currentPlayer := s.currentPlayer.Other())
  {
    NoLineSpelledOut(s.board);
  }
}
