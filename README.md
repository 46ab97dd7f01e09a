# Tic-tac-toe game logic

A model of the game logic of a single-screen Android tic-tac-toe app
(`MainActivity.kt`). Two players take turns placing X and O on a 3 by 3
board. The screen keeps the marks, whose turn it is, the stored result, the
two player names and a score per player. The model covers:

- the three enumerations (cell contents, players, results) and the game
  state record with its default values (module `Board`, module `Game`);
- `checkGameResult`, the evaluator that scans the eight winning patterns in
  their fixed order, as a function (`Board.CheckGameResult`) and as the loop
  the source writes (`Board.EvaluateBoard`), proved equal;
- the click handler, the restart button and the two name fields, as pure
  state transitions (`Game.ApplyMove`, `Game.Restart`, `Game.ChangeXName`,
  `Game.ChangeOName`) and as the methods of a class that holds the screen's
  one state variable and updates it step by step as the source does
  (`GameScreen.TicTacToeGame`);
- what holds of every state the screen can reach from a fresh start, for any
  sequence of clicks, restarts and name edits (`Game.Inv`, `Game.Reachable`).
  An input is a `Game.Event`; `Game.Step` passes one input to the transition
  of the widget it comes from (the name fields, a square, the restart button,
  MainActivity.kt:56, 62, 68-85, 89-93), and `Game.Run` applies a sequence of
  inputs in order.

The model follows the code as written, including two behaviours that are
easy to mistake for something else:

- **The stored result is that of the board before the click.** The click
  handler evaluates the board while building the copy that contains the new
  mark, so a win is stored one accepted click late. A board filled by its
  ninth mark is never evaluated again, even when that mark completes a line
  (`Game.LastSquareNeverEvaluated`). As a consequence the stored result is
  never `Draw` in any reachable state (`Game.Reachable`): a click is
  accepted only on an empty square, and a board with an empty square is
  never a draw.
- **Restart sets both scores back to 0.** The restart button builds a new
  state passing only the two names, so the scores take their default of 0.
  Together with the first point, each score is 1 exactly when the stored
  result is that player's win and 0 otherwise, so a score never exceeds 1
  and the 32-bit score never wraps.

A reader might expect the board after the new mark to be evaluated, so that a
winning or ninth mark is reported at once. The code evaluates the board before
it (`Game.WinRecordedOneClickLate`, `Game.LastSquareNeverEvaluated`,
`Game.DiagonalByLastMark`), and restart does not keep the scores.

Files: `Board.dfy` (module `Board`), `Game.dfy` (module `Game`),
`GameScreen.dfy` (module `GameScreen`).

## Model

| member | source | states |
|---|---|---|
| `Board.Player.Mark` | app/src/main/java/com/example/myapplication/MainActivity.kt:156-159 | a player's mark is never Empty, and it is the X mark exactly for player X |
| `Board.Player.Other` | app/src/main/java/com/example/myapplication/MainActivity.kt:82 | the turn always passes to the other player |
| `Board.EmptyBoard` | app/src/main/java/com/example/myapplication/MainActivity.kt:23 | the default board has nine squares, all Empty |
| `Board.ScanPatterns` | app/src/main/java/com/example/myapplication/MainActivity.kt:176-190 | scanning from pattern i on: X (O) wins exactly when the first pattern from i on that is filled by one player is filled with X (O); Draw exactly when no such pattern exists and no square is Empty; InProgress exactly when no such pattern exists and some square is Empty |
| `Board.CheckGameResult` | app/src/main/java/com/example/myapplication/MainActivity.kt:170-191 | the result of a nine-square board: X (O) wins exactly when the first of the eight patterns, in the order rows, columns, diagonals, that holds three equal marks holds X (O); with no such pattern, Draw exactly when the board is full and InProgress exactly when some square is Empty |
| `Board.EvaluateBoard` | app/src/main/java/com/example/myapplication/MainActivity.kt:176-190 | the loop over the patterns that returns on the first X line or O line, then tests for an empty square, returns the same result as CheckGameResult |
| `Board.NoLineSpelledOut` | app/src/main/java/com/example/myapplication/MainActivity.kt:171-175 | the eight patterns are the three rows, the three columns and the two diagonals: no pattern is a line exactly when none of those holds three equal marks |
| `Board.FirstPatternDecides` | app/src/main/java/com/example/myapplication/MainActivity.kt:176-184 | the scan order decides between two lines: a board with X on the top row and O on the middle row reports X; one with O down the first column and X down the second reports O |
| `Board.NotFullNeverDraw` | app/src/main/java/com/example/myapplication/MainActivity.kt:186-190 | a board with an empty square is never evaluated as a draw |
| `Board.CountAfterWrite` | app/src/main/java/com/example/myapplication/MainActivity.kt:71 | writing a mark into an empty square adds one square of that mark, removes one Empty square and leaves the other mark's count unchanged |
| `Game.Inc32` | app/src/main/java/com/example/myapplication/MainActivity.kt:76 | the Kotlin Int increment of a score: congruent to one more modulo 2^32, and exactly one more below the largest 32-bit value |
| `Game.NewGame` | app/src/main/java/com/example/myapplication/MainActivity.kt:22-30 | the default state: nine Empty squares, X to move, InProgress, names "Player X" and "Player O", both scores 0 |
| `Game.ApplyMove` | app/src/main/java/com/example/myapplication/MainActivity.kt:68-85 | a click leaves the state unchanged exactly when the result is not InProgress or the square is occupied; an accepted click writes the mover's mark at that square only, keeps nine squares, stores the result of the board before the mark, adds one point to that result's winner only, keeps both names, and passes the turn even when the stored result ends the game |
| `Game.Restart` | app/src/main/java/com/example/myapplication/MainActivity.kt:89-93 | restarting keeps both names and resets the board to nine Empty squares, the turn to X, the result to InProgress and both scores to 0 |
| `Game.ChangeXName` | app/src/main/java/com/example/myapplication/MainActivity.kt:56 | an edit of X's name field sets that name and leaves every other field unchanged |
| `Game.ChangeOName` | app/src/main/java/com/example/myapplication/MainActivity.kt:62 | an edit of O's name field sets that name and leaves every other field unchanged |
| `Game.InitialInv` | app/src/main/java/com/example/myapplication/MainActivity.kt:22-30 | the default state satisfies the reachable-state invariant |
| `Game.ApplyMoveInv` | app/src/main/java/com/example/myapplication/MainActivity.kt:68-85 | a click keeps the invariant: nine squares, X's marks equal O's or one more when O is to move, each score 1 exactly on its player's stored win, a stored win backed by a line of the winner's marks, and no stored Draw |
| `Game.StepInv` | app/src/main/java/com/example/myapplication/MainActivity.kt:56-93 | every input the screen passes on (a click, a restart, a name edit) keeps the invariant |
| `Game.RunInv` | app/src/main/java/com/example/myapplication/MainActivity.kt:56-93 | any sequence of inputs keeps the invariant |
| `Game.Reachable` | app/src/main/java/com/example/myapplication/MainActivity.kt:24-29 | from a fresh screen, after any inputs, X has as many marks as O or exactly one more, each score is 0 or 1 and at most one of them is 1, and the stored result is never Draw |
| `Game.ClicksIgnoredWhenOver` | app/src/main/java/com/example/myapplication/MainActivity.kt:69 | once the stored result is not InProgress, or the board is full, any sequence of clicks leaves the state unchanged |
| `Game.LastSquareNeverEvaluated` | app/src/main/java/com/example/myapplication/MainActivity.kt:69-73 | a click filling the last empty square of a board without a line stores InProgress and no point, and every later click leaves it so, even when that last mark completes a line |
| `Game.DiagonalByLastMark` | app/src/main/java/com/example/myapplication/MainActivity.kt:69-83 | an instance: X, to move on the board X O O / O X X / O X with square 8 empty, takes square 8 and completes the diagonal 0-4-8; the full board evaluates to X's win, yet the click stores InProgress and leaves both scores unchanged |
| `Game.DiagonalWins` | app/src/main/java/com/example/myapplication/MainActivity.kt:170-191 | the board X O O / O X X / O X X is full and evaluates to X's win, the diagonal 0-4-8 being its first line |
| `Game.WinRecordedOneClickLate` | app/src/main/java/com/example/myapplication/MainActivity.kt:70-83 | in a fresh game, after X plays 0, 1, 2 and O plays 3, 4, the stored result is still InProgress with X at 0 points; O's next click on 5 stores X's win, gives X exactly one point, and passes the turn back to X |
| `GameScreen.TicTacToeGame.constructor` | app/src/main/java/com/example/myapplication/MainActivity.kt:34 | a new screen holds the default state, which satisfies the invariant |
| `GameScreen.TicTacToeGame.OnCellClicked` | app/src/main/java/com/example/myapplication/MainActivity.kt:68-85 | the handler's three successive replacements of the held state (mark and result, score, turn) end in the state ApplyMove gives, and keep the invariant |
| `GameScreen.TicTacToeGame.OnRestartClicked` | app/src/main/java/com/example/myapplication/MainActivity.kt:89-93 | the restart handler leaves the state Restart gives, and keeps the invariant |
| `GameScreen.TicTacToeGame.OnPlayerXNameChange` | app/src/main/java/com/example/myapplication/MainActivity.kt:56 | the X name handler leaves the state ChangeXName gives, and keeps the invariant |
| `GameScreen.TicTacToeGame.OnPlayerONameChange` | app/src/main/java/com/example/myapplication/MainActivity.kt:62 | the O name handler leaves the state ChangeOName gives, and keeps the invariant |

## Left out

- All rendering: the background image, layout, text fields, buttons, cell
  buttons and their styling. This is user-interface code with no game logic.
- The result banner and the score lines (MainActivity.kt:97-111). These only
  format the state as text.
- `MainActivity.onCreate`. This is Android lifecycle code.
- Compose's `remember`/`mutableStateOf` state holder. It is modelled as the
  single field `gameState` of `GameScreen.TicTacToeGame`, not as observable
  state; redrawing after a change is not modelled.
- Out-of-range square indices. The grid only produces `row * 3 + col` for
  rows and columns 0 to 2 (MainActivity.kt:129), so a click index is a
  `CellIndex` in 0..8 and the index error Kotlin would raise is not modelled.
- Boards of another length than nine. The state's board is always built with
  nine squares and the model requires that (`Board.IsBoard`), so the index
  error `checkGameResult` would raise on a shorter list is not modelled.
- The copy of the board into a `MutableList` before the write
  (MainActivity.kt:71) is modelled as a sequence update, which is the same
  new list; the old list is never shared with the new state.
