/**
 * The game controller: the module-level state currentTurn, gameStatus and
 * cellValues as the fields of one object, and the click and replay
 * handlers as its methods. Each method is proved to follow the functions of
 * module Session, and the balance between the board and the turn is part of
 * the object invariant.
 */
module MainDelegation {
  import opened Wrappers
  import opened Constants
  import opened Evaluation
  import opened Board
  import opened View
  import opened Session

  class GameController {
    var currentTurn: Turn
    var gameStatus: Option<GameStatus>
    var cellValues: array<CellValue>
    /** The win/draw evaluator checkGameStatus, supplied from outside. */
    const evaluate: Evaluator

    /** Nine cells, and marks balanced with the turn. */
    ghost predicate Valid()
      reads this, cellValues
    {
      cellValues.Length == BoardSize && Balanced(cellValues[..], currentTurn)
    }

    /** The controller's state as a value. */
    ghost function Snapshot(): State
      reads this, cellValues
    {
      State(currentTurn, gameStatus, cellValues[..])
    }

    /** The globals as the module sets them when it loads. */
    constructor (evaluate: Evaluator)
      ensures Valid() && fresh(cellValues)
      ensures Snapshot() == Initial()
      ensures this.evaluate == evaluate
    {
      currentTurn := Cross;
      gameStatus := Some(Loading);
      cellValues := new CellValue[BoardSize](_ => Empty);
      this.evaluate := evaluate;
      new;
      assert cellValues[..] == Cleared(BoardSize);
      ResetIsBalanced(Initial());
    }

    /** addAndToggleTurn: the clicked cell takes the mover's class, then the turn flips. */
    method AddAndToggleTurn(index: nat) returns (actions: seq<Render>)
      modifies this`currentTurn
      ensures currentTurn == Toggle(old(currentTurn))
      ensures actions == [MarkCell(index, old(currentTurn)), ShowTurn(currentTurn)]
    {
      var mark := currentTurn;
      currentTurn := if currentTurn == Circle then Cross else Circle;
      actions := [MarkCell(index, mark), ShowTurn(currentTurn)];
    }

    /**
     * handleClickCell: ignore a click on a marked cell or after the game has
     * ended; otherwise mark the cell, flip the turn, store the evaluator's
     * status and render according to it.
     */
    method HandleClickCell(index: nat) returns (r: Response)
      requires Valid()
      requires index < BoardSize
      modifies this, cellValues
      ensures Valid() && cellValues == old(cellValues)
      ensures Snapshot() == AfterClick(old(Snapshot()), index, evaluate)
      ensures r == ClickResponse(old(Snapshot()), index, evaluate)
    {
      ghost var before := Snapshot();
      var isClicked := cellValues[index] != Empty;
      var isEndGame := gameStatus != Some(Playing) && gameStatus != Some(Loading);
      if isClicked || isEndGame {
        return Response([], Completed);
      }

      cellValues[index] := if currentTurn == Cross then CrossMark else CircleMark;
      var toggled := AddAndToggleTurn(index);

      var game := evaluate(cellValues[..]);
      gameStatus := game.status;
      assert Snapshot() == AfterClick(before, index, evaluate);
      ClickPreservesBalance(before, index, evaluate);

      var shown := SwitchOnStatus(game);
      r := Response(toggled + shown.actions, shown.outcome);
    }

    /**
     * resetGame: LOADING, CROSS to move and a new all-empty board, then the
     * status text, every cell cleared, the turn indicator and the replay
     * button hidden.
     */
    method ResetGame() returns (r: Response)
      requires Valid()
      modifies this
      ensures Valid() && fresh(cellValues)
      ensures Snapshot() == AfterReset(old(Snapshot()))
      ensures r == ResetResponse(BoardSize)
    {
      ghost var before := Snapshot();
      gameStatus := Some(Loading);
      currentTurn := Cross;
      cellValues := new CellValue[cellValues.Length](_ => Empty);
      var shown := UpdateStatusGame(gameStatus);
      var cleared := ClearCells(cellValues.Length);
      r := Response(shown.actions + cleared + [ShowTurn(currentTurn), HideReplay], Completed);
      assert cellValues[..] == Cleared(|before.board|);
      ResetIsBalanced(before);
    }
  }
}
