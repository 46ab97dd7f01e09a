/**
 * The game screen's own state: the one game state it holds and redraws
 * from, and the handlers the screen's widgets call. Each handler replaces
 * the held state, step by step as the screen does.
 */
module GameScreen {
  import opened Board
  import opened Game

  class TicTacToeGame {
    /** The state the screen currently shows. */
    var gameState: GameState

    /** The held state is one the screen can reach. */
    ghost predicate Valid()
      reads this
    {
      Inv(gameState)
    }

    /** A new screen holds a fresh game with the default names. */
    constructor ()
      ensures Valid() && gameState == NewGame()
    {
      gameState := NewGame();
      new;
      InitialInv();
    }

    /**
     * A click on square `index`: copy the board with the mover's mark and the
     * result of the board before that mark, then credit the result's winner,
     * then pass the turn.
     */
    method OnCellClicked(index: CellIndex)
      requires Valid()
      modifies this
      ensures Valid()
      ensures gameState == ApplyMove(old(gameState), index)
    {
      ghost var before := gameState;
      if gameState.gameResult == InProgress && gameState.board[index] == Cell.Empty {
        var result := EvaluateBoard(gameState.board);
        gameState := gameState.(
          board := gameState.board[index := gameState.currentPlayer.Mark()],
          gameResult := result);
        if gameState.gameResult == PlayerXWins {
          gameState := gameState.(playerXScore := Inc32(gameState.playerXScore));
        } else if gameState.gameResult == PlayerOWins {
          gameState := gameState.(playerOScore := Inc32(gameState.playerOScore));
        }
        gameState := gameState.(
          currentPlayer := if gameState.currentPlayer == Player.X then Player.O else Player.X);
      }
      ApplyMoveInv(before, index);
    }

    /** The restart button: a fresh game that keeps only the two names. */
    method OnRestartClicked()
      requires Valid()
      modifies this
      ensures Valid()
      ensures gameState == Restart(old(gameState))
    {
      gameState := GameState(playerXName := gameState.playerXName,
                             playerOName := gameState.playerOName);
      StepInv(old(gameState), RestartClicked);
    }

    /** An edit in X's name field. */
    method OnPlayerXNameChange(name: string)
      requires Valid()
      modifies this
      ensures Valid()
      ensures gameState == ChangeXName(old(gameState), name)
    {
      gameState := gameState.(playerXName := name);
    }

    /** An edit in O's name field. */
    method OnPlayerONameChange(name: string)
      requires Valid()
      modifies this
      ensures Valid()
      ensures gameState == ChangeOName(old(gameState), name)
    {
      gameState := gameState.(playerOName := name);
    }
  }
}
