/**
 * The game session's state (the globals currentTurn, gameStatus and
 * cellValues) as a value, and the effect of a cell click and of a reset on
 * it. The controller class in MainDelegation is proved to follow these
 * functions; the properties of the game are proved about them here.
 */
module Session {
  import opened Wrappers
  import opened Constants
  import opened Evaluation
  import opened Board
  import opened View

  /** currentTurn, gameStatus (undefined when the evaluator gave none), cellValues. */
  datatype State = State(turn: Turn, status: Option<GameStatus>, board: seq<CellValue>)

  /** The state the module starts in: CROSS to move, LOADING, nine empty cells. */
  function Initial(): (s: State)
    ensures s.turn == Cross && s.status == Some(Loading)
    ensures |s.board| == BoardSize
    ensures forall i :: 0 <= i < BoardSize ==> s.board[i] == Empty
  {
    State(Cross, Some(Loading), Cleared(BoardSize))
  }

  /** The cell value written for the player to move. */
  function MarkFor(turn: Turn): (v: CellValue)
    ensures v != Empty
    ensures v == CrossMark <==> turn == Cross
  {
    if turn == Cross then CrossMark else CircleMark
  }

  /** The turn flip of addAndToggleTurn. */
  function Toggle(turn: Turn): (next: Turn)
    ensures next != turn
  {
    if turn == Circle then Cross else Circle
  }

  /** Moves are taken only while the status is PLAYING or LOADING. */
  predicate AcceptsMoves(status: Option<GameStatus>) {
    status == Some(Playing) || status == Some(Loading)
  }

  /** The guard of handleClickCell: an unmarked cell and a game still in progress. */
  predicate Accepts(s: State, index: nat)
    requires index < |s.board|
  {
    s.board[index] == Empty && AcceptsMoves(s.status)
  }

  /**
   * The state after a click on cell `index`: unchanged when the guard refuses
   * it; otherwise the mover's mark is written, the turn flips and the
   * evaluator's status for the new board is stored.
   */
  function AfterClick(s: State, index: nat, evaluate: Evaluator): (r: State)
    requires index < |s.board|
    ensures |r.board| == |s.board|
    ensures Extends(s.board, r.board)
    ensures !Accepts(s, index) ==> r == s
    ensures Accepts(s, index) ==>
              r.board[index] == MarkFor(s.turn) &&
              (forall j :: 0 <= j < |s.board| && j != index ==> r.board[j] == s.board[j]) &&
              r.turn != s.turn &&
              r.status == evaluate(r.board).status
  {
    if !Accepts(s, index) then s
    else
      var board := s.board[index := MarkFor(s.turn)];
      State(Toggle(s.turn), evaluate(board).status, board)
  }

  /** What a click shows: nothing when refused, else the mark, the turn and the status switch. */
  function ClickResponse(s: State, index: nat, evaluate: Evaluator): (r: Response)
    requires index < |s.board|
    ensures !Accepts(s, index) ==> r == Response([], Completed)
    ensures Accepts(s, index) ==>
              |r.actions| >= 2 &&
              r.actions[0] == MarkCell(index, s.turn) &&
              r.actions[1] == ShowTurn(AfterClick(s, index, evaluate).turn) &&
              (r.outcome.Completed? <==> ReportWellShaped(evaluate(AfterClick(s, index, evaluate).board))) &&
              (AfterClick(s, index, evaluate).status.Some? ==>
                 |r.actions| >= 3 && r.actions[2] == ShowStatus(AfterClick(s, index, evaluate).status.value))
  {
    if !Accepts(s, index) then Response([], Completed)
    else
      var next := AfterClick(s, index, evaluate);
      var shown := StatusResponse(evaluate(next.board));
      Response([MarkCell(index, s.turn), ShowTurn(next.turn)] + shown.actions, shown.outcome)
  }

  /** resetGame: LOADING, CROSS to move, and every cell emptied (map keeps the length). */
  function AfterReset(s: State): (r: State)
    ensures r.turn == Cross && r.status == Some(Loading)
    ensures |r.board| == |s.board|
    ensures forall i :: 0 <= i < |r.board| ==> r.board[i] == Empty
  {
    State(Cross, Some(Loading), Cleared(|s.board|))
  }

  /** What resetGame shows, given the number of cell elements on the page. */
  function ResetResponse(cellCount: nat): (r: Response)
    ensures r.outcome == Completed
    ensures HideReplay in r.actions && ShowReplay !in r.actions
    ensures |r.actions| == cellCount + 3
    ensures r.actions[0] == ShowStatus(Loading)
    ensures forall i :: 0 <= i < cellCount ==> r.actions[i + 1] == ClearCell(i)
    ensures r.actions[cellCount + 1] == ShowTurn(Cross) && r.actions[cellCount + 2] == HideReplay
  {
    Response([ShowStatus(Loading)] + ClearAll(cellCount) + [ShowTurn(Cross), HideReplay], Completed)
  }

  /** Every move names a cell of the board. */
  predicate InRange(moves: seq<nat>, cellCount: nat) {
    forall k :: 0 <= k < |moves| ==> moves[k] < cellCount
  }

  /** A sequence of clicks, applied in order. */
  function Play(s: State, moves: seq<nat>, evaluate: Evaluator): (r: State)
    requires InRange(moves, |s.board|)
    ensures |r.board| == |s.board|
    decreases |moves|
  {
    if moves == [] then s
    else Play(AfterClick(s, moves[0], evaluate), moves[1..], evaluate)
  }

  // ----- Properties of the session -----

  /** Reset gives the initial state whatever came before, so resetting twice is resetting once. */
  lemma ResetRestoresInitial(s: State)
    requires |s.board| == BoardSize
    ensures AfterReset(s) == Initial()
    ensures AfterReset(AfterReset(s)) == AfterReset(s)
  {
  }

  /** A reset state is balanced: no marks, CROSS to move. */
  lemma ResetIsBalanced(s: State)
    ensures Balanced(AfterReset(s).board, AfterReset(s).turn)
  {
  }

  /** A click keeps the marks balanced with the turn. */
  lemma {:induction false} ClickPreservesBalance(s: State, index: nat, evaluate: Evaluator)
    requires index < |s.board|
    requires Balanced(s.board, s.turn)
    ensures Balanced(AfterClick(s, index, evaluate).board, AfterClick(s, index, evaluate).turn)
  {
    if Accepts(s, index) {
      CountUpdate(s.board, index, MarkFor(s.turn), CrossMark);
      CountUpdate(s.board, index, MarkFor(s.turn), CircleMark);
    }
  }

  /** An accepted click adds exactly one mark. */
  lemma {:induction false} ClickAddsOneMark(s: State, index: nat, evaluate: Evaluator)
    requires index < |s.board|
    requires Accepts(s, index)
    ensures Marked(AfterClick(s, index, evaluate).board) == Marked(s.board) + 1
  {
    CountUpdate(s.board, index, MarkFor(s.turn), CrossMark);
    CountUpdate(s.board, index, MarkFor(s.turn), CircleMark);
  }

  /** Any sequence of clicks keeps the balance and only ever adds marks. */
  lemma {:induction false} PlayPreservesBalance(s: State, moves: seq<nat>, evaluate: Evaluator)
    requires InRange(moves, |s.board|)
    requires Balanced(s.board, s.turn)
    ensures Balanced(Play(s, moves, evaluate).board, Play(s, moves, evaluate).turn)
    ensures Extends(s.board, Play(s, moves, evaluate).board)
    decreases |moves|
  {
    if moves != [] {
      var next := AfterClick(s, moves[0], evaluate);
      ClickPreservesBalance(s, moves[0], evaluate);
      PlayPreservesBalance(next, moves[1..], evaluate);
      ExtendsTransitive(s.board, next.board, Play(next, moves[1..], evaluate).board);
    }
  }

  /** Every state reached by clicks after a reset is balanced. */
  lemma ReachableIsBalanced(s: State, moves: seq<nat>, evaluate: Evaluator)
    requires InRange(moves, |s.board|)
    ensures Balanced(Play(AfterReset(s), moves, evaluate).board, Play(AfterReset(s), moves, evaluate).turn)
  {
    ResetIsBalanced(s);
    PlayPreservesBalance(AfterReset(s), moves, evaluate);
  }

  /** Once the status no longer accepts moves (a finished game), no click changes anything. */
  lemma {:induction false} FinishedGameIsFrozen(s: State, moves: seq<nat>, evaluate: Evaluator)
    requires InRange(moves, |s.board|)
    requires !AcceptsMoves(s.status)
    ensures Play(s, moves, evaluate) == s
    decreases |moves|
  {
    if moves != [] {
      FinishedGameIsFrozen(s, moves[1..], evaluate);
    }
  }

  /** With an evaluator of the expected shape, a click never throws. */
  lemma ClickCompletes(s: State, index: nat, evaluate: Evaluator)
    requires WellShaped(evaluate)
    requires |s.board| == BoardSize && index < BoardSize
    ensures ClickResponse(s, index, evaluate).outcome == Completed
  {
  }

  /**
   * The replay button is shown by a click exactly when the click is taken,
   * completes, and the new status is ENDED, X_WIN or O_WIN.
   */
  lemma ClickShowsReplayIffOver(s: State, index: nat, evaluate: Evaluator)
    requires index < |s.board|
    ensures var r := ClickResponse(s, index, evaluate);
            var status := AfterClick(s, index, evaluate).status;
            ShowReplay in r.actions <==>
              Accepts(s, index) && r.outcome.Completed? && status.Some? && IsOver(status.value)
  {
  }

  /** A click highlights cells only when the new status is X_WIN or O_WIN. */
  lemma ClickHighlightsOnlyWins(s: State, index: nat, evaluate: Evaluator)
    requires index < |s.board|
    ensures var status := AfterClick(s, index, evaluate).status;
            forall a :: a in ClickResponse(s, index, evaluate).actions && a.HighlightCell? ==>
              status.Some? && IsWin(status.value)
  {
  }

  /**
   * An accepted click whose new status is a win with three positions marks
   * the cell, shows the new turn and the status, highlights the three
   * winning cells in the order given, and then shows the replay button.
   */
  lemma ClickHighlightsWinningLine(s: State, index: nat, evaluate: Evaluator)
    requires index < |s.board| && Accepts(s, index)
    requires var report := evaluate(AfterClick(s, index, evaluate).board);
             ReportWellShaped(report) && IsWin(report.status.value)
    ensures var report := evaluate(AfterClick(s, index, evaluate).board);
            var p := report.winPositions.value;
            ClickResponse(s, index, evaluate).actions ==
              [MarkCell(index, s.turn), ShowTurn(Toggle(s.turn)), ShowStatus(report.status.value),
               HighlightCell(p[0]), HighlightCell(p[1]), HighlightCell(p[2]), ShowReplay]
  {
  }

  /**
   * An accepted click that ends in a draw marks the cell, shows the new turn,
   * the ENDED status and the replay button, and nothing else.
   */
  lemma ClickShowsDraw(s: State, index: nat, evaluate: Evaluator)
    requires index < |s.board| && Accepts(s, index)
    requires evaluate(AfterClick(s, index, evaluate).board).status == Some(Ended)
    ensures ClickResponse(s, index, evaluate).actions ==
              [MarkCell(index, s.turn), ShowTurn(Toggle(s.turn)), ShowStatus(Ended), ShowReplay]
  {
  }

  /**
   * An accepted click after which the game goes on (the status is neither
   * ENDED, X_WIN nor O_WIN) marks the cell, shows the new turn and the
   * status, and nothing else.
   */
  lemma ClickShowsOngoing(s: State, index: nat, evaluate: Evaluator)
    requires index < |s.board| && Accepts(s, index)
    requires var status := evaluate(AfterClick(s, index, evaluate).board).status;
             status.Some? && !IsOver(status.value)
    ensures var status := evaluate(AfterClick(s, index, evaluate).board).status;
            ClickResponse(s, index, evaluate).actions ==
              [MarkCell(index, s.turn), ShowTurn(Toggle(s.turn)), ShowStatus(status.value)]
  {
  }

  /**
   * An accepted click for which the evaluator gives no status marks the
   * cell and shows the new turn; then updateStatusGame throws and nothing
   * else is shown.
   */
  lemma ClickMissingStatus(s: State, index: nat, evaluate: Evaluator)
    requires index < |s.board| && Accepts(s, index)
    requires evaluate(AfterClick(s, index, evaluate).board).status.None?
    ensures ClickResponse(s, index, evaluate) ==
              Response([MarkCell(index, s.turn), ShowTurn(Toggle(s.turn))], Thrown(MissingStatus))
  {
  }

  /**
   * An accepted click that ends in a win without exactly three positions
   * marks the cell, shows the new turn and the status; then highlightCells
   * throws before the replay button is shown.
   */
  lemma ClickMalformedWin(s: State, index: nat, evaluate: Evaluator)
    requires index < |s.board| && Accepts(s, index)
    requires var report := evaluate(AfterClick(s, index, evaluate).board);
             report.status.Some? && IsWin(report.status.value) && !ReportWellShaped(report)
    ensures var report := evaluate(AfterClick(s, index, evaluate).board);
            ClickResponse(s, index, evaluate) ==
              Response([MarkCell(index, s.turn), ShowTurn(Toggle(s.turn)), ShowStatus(report.status.value)],
                       Thrown(InvalidWinPositions))
  {
  }
}
