/**
 * The board of the tic-tac-toe game: the three enumerations of the game
 * (cell contents, players, results), the eight winning patterns, and the
 * evaluator that reads a result off a board.
 */
module Board {

  /** What one square holds. */
  datatype Cell = X | O | Empty

  /** The two players; each places the mark of the same name. */
  datatype Player = X | O {

    /** The mark this player writes into a square. */
    function Mark(): (c: Cell)
      ensures c != Cell.Empty
      ensures (c == Cell.X) <==> (this == Player.X)
    {
      match this
      case X => Cell.X
      case O => Cell.O
    }

    /** The player whose turn comes next. */
    function Other(): (p: Player)
      ensures p != this
    {
      if this == Player.X then Player.O else Player.X
    }
  }

  /** The outcome the game reports. */
  datatype GameResult = InProgress | PlayerXWins | PlayerOWins | Draw

  /** A square of the 3 by 3 grid, numbered row by row. */
  type CellIndex = i: nat | i < 9

  /** Three squares in a line. */
  type Pattern = p: seq<CellIndex> | |p| == 3 witness [0, 1, 2]

  /** The board always has exactly nine squares. */
  predicate IsBoard(board: seq<Cell>)
  {
    |board| == 9
  }

  /** Every square empty: the board a new game starts on. */
  function EmptyBoard(): (b: seq<Cell>)
    ensures IsBoard(b)
    ensures forall k :: 0 <= k < |b| ==> b[k] == Cell.Empty
  {
    [Cell.Empty, Cell.Empty, Cell.Empty,
     Cell.Empty, Cell.Empty, Cell.Empty,
     Cell.Empty, Cell.Empty, Cell.Empty]
  }

  /** The patterns in the order they are scanned: rows, columns, diagonals. */
  const WinPatterns: seq<Pattern> :=
    [[0, 1, 2], [3, 4, 5], [6, 7, 8],
     [0, 3, 6], [1, 4, 7], [2, 5, 8],
     [0, 4, 8], [2, 4, 6]]

  /** Every square of `pattern` holds `c`. */
  predicate Uniform(board: seq<Cell>, pattern: Pattern, c: Cell)
    requires IsBoard(board)
  {
    forall k :: 0 <= k < |pattern| ==> board[pattern[k]] == c
  }

  /** Pattern `i` is filled with the marks of a single player. */
  predicate IsLine(board: seq<Cell>, i: nat)
    requires IsBoard(board) && i < |WinPatterns|
  {
    Uniform(board, WinPatterns[i], Cell.X) || Uniform(board, WinPatterns[i], Cell.O)
  }

  /** Among the patterns from `from` on, `j` is the first one that is a line. */
  predicate FirstLineFrom(board: seq<Cell>, from: nat, j: nat)
    requires IsBoard(board)
  {
    from <= j < |WinPatterns| && IsLine(board, j) &&
    forall m :: from <= m < j ==> !IsLine(board, m)
  }

  /** No pattern from `from` on is a line. */
  predicate NoLineFrom(board: seq<Cell>, from: nat)
    requires IsBoard(board)
  {
    forall m :: from <= m < |WinPatterns| ==> !IsLine(board, m)
  }

  /** Every square holds a mark. */
  predicate Full(board: seq<Cell>)
  {
    forall k :: 0 <= k < |board| ==> board[k] != Cell.Empty
  }

  /** A mark cannot be both an X and an O. */
  lemma UniformExclusive(board: seq<Cell>, pattern: Pattern)
    requires IsBoard(board)
    ensures !(Uniform(board, pattern, Cell.X) && Uniform(board, pattern, Cell.O))
  {
    if Uniform(board, pattern, Cell.X) {
      assert board[pattern[0]] == Cell.X;
    }
  }

  /**
   * The scan of the patterns from index `i` on: the first pattern filled by
   * one player decides, and only when no pattern does is the board checked
   * for an empty square.
   */
  function ScanPatterns(board: seq<Cell>, i: nat): (r: GameResult)
    requires IsBoard(board) && i <= |WinPatterns|
    ensures r == PlayerXWins <==>
      exists j: nat :: FirstLineFrom(board, i, j) && Uniform(board, WinPatterns[j], Cell.X)
    ensures r == PlayerOWins <==>
      exists j: nat :: FirstLineFrom(board, i, j) && Uniform(board, WinPatterns[j], Cell.O)
    ensures r == Draw <==> NoLineFrom(board, i) && Full(board)
    ensures r == InProgress <==> NoLineFrom(board, i) && !Full(board)
    decreases |WinPatterns| - i
  {
    if i == |WinPatterns| then
      if Full(board) then Draw else InProgress
    else if Uniform(board, WinPatterns[i], Cell.X) then
      assert FirstLineFrom(board, i, i);
      UniformExclusive(board, WinPatterns[i]);
      PlayerXWins
    else if Uniform(board, WinPatterns[i], Cell.O) then
      assert FirstLineFrom(board, i, i);
      UniformExclusive(board, WinPatterns[i]);
      PlayerOWins
    else
      var r := ScanPatterns(board, i + 1);
      FirstLineSkips(board, i);
      r
  }

  /** When pattern `i` is not a line, the first line from `i` is the first line from `i + 1`. */
  lemma FirstLineSkips(board: seq<Cell>, i: nat)
    requires IsBoard(board) && i < |WinPatterns| && !IsLine(board, i)
    ensures forall j :: FirstLineFrom(board, i, j) <==> FirstLineFrom(board, i + 1, j)
    ensures NoLineFrom(board, i) <==> NoLineFrom(board, i + 1)
  {
  }

  /**
   * The result of a board: the player who fills the first winning pattern
   * (rows, then columns, then diagonals) wins; with no such pattern the game
   * is a draw when the board is full and in progress otherwise.
   */
  function CheckGameResult(board: seq<Cell>): (r: GameResult)
    requires IsBoard(board)
    ensures r == PlayerXWins <==>
      exists j: nat :: FirstLineFrom(board, 0, j) && Uniform(board, WinPatterns[j], Cell.X)
    ensures r == PlayerOWins <==>
      exists j: nat :: FirstLineFrom(board, 0, j) && Uniform(board, WinPatterns[j], Cell.O)
    ensures r == Draw <==> NoLineFrom(board, 0) && Full(board)
    ensures r == InProgress <==> NoLineFrom(board, 0) && !Full(board)
  {
    ScanPatterns(board, 0)
  }

  /** The evaluator as a loop over the patterns that returns on the first line it finds. */
  method EvaluateBoard(board: seq<Cell>) returns (r: GameResult)
    requires IsBoard(board)
    ensures r == CheckGameResult(board)
  {
    for i := 0 to |WinPatterns|
      invariant ScanPatterns(board, i) == CheckGameResult(board)
    {
      var pattern := WinPatterns[i];
      if forall k :: 0 <= k < |pattern| ==> board[pattern[k]] == Cell.X {
        return PlayerXWins;
      }
      if forall k :: 0 <= k < |pattern| ==> board[pattern[k]] == Cell.O {
        return PlayerOWins;
      }
    }
    if forall k :: 0 <= k < |board| ==> board[k] != Cell.Empty {
      return Draw;
    }
    return InProgress;
  }

  /** Squares `a`, `b` and `c` hold the same mark. */
  predicate SameMark(board: seq<Cell>, a: CellIndex, b: CellIndex, c: CellIndex)
    requires IsBoard(board)
  {
    board[a] != Cell.Empty && board[a] == board[b] && board[b] == board[c]
  }

  /** No row, column or diagonal holds three equal marks. */
  predicate NoThreeInARow(board: seq<Cell>)
    requires IsBoard(board)
  {
    !SameMark(board, 0, 1, 2) && !SameMark(board, 3, 4, 5) && !SameMark(board, 6, 7, 8) &&
    !SameMark(board, 0, 3, 6) && !SameMark(board, 1, 4, 7) && !SameMark(board, 2, 5, 8) &&
    !SameMark(board, 0, 4, 8) && !SameMark(board, 2, 4, 6)
  }

  /** The eight patterns are exactly the three rows, the three columns and the two diagonals. */
  lemma NoLineSpelledOut(board: seq<Cell>)
    requires IsBoard(board)
    ensures NoLineFrom(board, 0) <==> NoThreeInARow(board)
  {
    forall m | 0 <= m < |WinPatterns|
      ensures IsLine(board, m) <==>
        var p := WinPatterns[m]; SameMark(board, p[0], p[1], p[2])
    {
      var p := WinPatterns[m];
      if SameMark(board, p[0], p[1], p[2]) {
        assert Uniform(board, p, board[p[0]]);
      }
    }
    assert WinPatterns[0] == [0, 1, 2] && WinPatterns[1] == [3, 4, 5] && WinPatterns[2] == [6, 7, 8];
    assert WinPatterns[3] == [0, 3, 6] && WinPatterns[4] == [1, 4, 7] && WinPatterns[5] == [2, 5, 8];
    assert WinPatterns[6] == [0, 4, 8] && WinPatterns[7] == [2, 4, 6];
  }

  /** A board with an empty square is never a draw. */
  lemma NotFullNeverDraw(board: seq<Cell>, k: CellIndex)
    requires IsBoard(board) && board[k] == Cell.Empty
    ensures CheckGameResult(board) != Draw
  {
  }

  /**
   * The scan order decides between two lines: with X on the top row and O
   * on the middle row, the top row is scanned first and X is reported; with
   * O down the first column and X down the second, the first column is
   * scanned first and O is reported.
   */
  lemma FirstPatternDecides()
    ensures CheckGameResult([Cell.X, Cell.X, Cell.X,
                             Cell.O, Cell.O, Cell.O,
                             Cell.Empty, Cell.Empty, Cell.Empty]) == PlayerXWins
    ensures CheckGameResult([Cell.O, Cell.X, Cell.Empty,
                             Cell.O, Cell.X, Cell.Empty,
                             Cell.O, Cell.X, Cell.Empty]) == PlayerOWins
  {
    var b1 := [Cell.X, Cell.X, Cell.X,
               Cell.O, Cell.O, Cell.O,
               Cell.Empty, Cell.Empty, Cell.Empty];
    assert FirstLineFrom(b1, 0, 0) && Uniform(b1, WinPatterns[0], Cell.X);
    var b2 := [Cell.O, Cell.X, Cell.Empty,
               Cell.O, Cell.X, Cell.Empty,
               Cell.O, Cell.X, Cell.Empty];
    forall m | 0 <= m < 3 ensures !IsLine(b2, m) {
      assert b2[WinPatterns[m][0]] == Cell.O && b2[WinPatterns[m][1]] == Cell.X;
    }
    assert FirstLineFrom(b2, 0, 3) && Uniform(b2, WinPatterns[3], Cell.O);
  }

  /** The number of squares holding `c`. */
  function CountCells(board: seq<Cell>, c: Cell): (n: nat)
    ensures n <= |board|
  {
    if board == [] then 0
    else (if board[0] == c then 1 else 0) + CountCells(board[1..], c)
  }

  /**
   * Writing a mark into an empty square adds one square of that mark and
   * leaves the count of every other mark alone.
   */
  lemma {:induction false} CountAfterWrite(board: seq<Cell>, k: nat, mark: Cell, c: Cell)
    requires k < |board| && board[k] == Cell.Empty && mark != Cell.Empty
    ensures CountCells(board[k := mark], c) ==
      if c == mark then CountCells(board, c) + 1
      else if c == Cell.Empty then CountCells(board, c) - 1
      else CountCells(board, c)
  {
    if k > 0 {
      assert board[k := mark][1..] == board[1..][k - 1 := mark];
      CountAfterWrite(board[1..], k - 1, mark, c);
    } else {
      assert board[k := mark][1..] == board[1..];
    }
  }

  /** The empty board holds no marks. */
  lemma EmptyBoardCounts()
    ensures CountCells(EmptyBoard(), Cell.X) == 0
    ensures CountCells(EmptyBoard(), Cell.O) == 0
  {
  }
}
