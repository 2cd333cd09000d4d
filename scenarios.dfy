/**
 * Concrete games played through the session functions: the first row won
 * by CROSS, and the first move after a replay. The evaluator stays a
 * parameter, so its verdicts appear only as hypotheses or as results.
 */
module Scenarios {
  import opened Evaluation
  import opened Constants
  import opened Board
  import opened Session

  // Short names for the cell values, to keep the literal boards readable.
  const E := Empty
  const X := CrossMark
  const O := CircleMark

  /**
   * Playing 0, 3, 1, 4, 2 from the start: CROSS holds the top row, CIRCLE
   * cells 3 and 4, CIRCLE is to move and the stored status is the
   * evaluator's verdict on that board, provided the evaluator let the game go
   * on after each earlier move.
   */
  lemma TopRowScenario(evaluate: Evaluator)
    requires AcceptsMoves(evaluate([X, E, E, E, E, E, E, E, E]).status)
    requires AcceptsMoves(evaluate([X, E, E, O, E, E, E, E, E]).status)
    requires AcceptsMoves(evaluate([X, X, E, O, E, E, E, E, E]).status)
    requires AcceptsMoves(evaluate([X, X, E, O, O, E, E, E, E]).status)
    ensures var r := AfterClick(AfterClick(AfterClick(AfterClick(AfterClick(
                       Initial(), 0, evaluate), 3, evaluate), 1, evaluate), 4, evaluate), 2, evaluate);
            r.board == [X, X, X, O, O, E, E, E, E] &&
            r.turn == Circle &&
            r.status == evaluate(r.board).status
  {
    var s0 := Initial();
    assert s0.board == [E, E, E, E, E, E, E, E, E];
    var s1 := AcceptedClick(s0, 0, [X, E, E, E, E, E, E, E, E], evaluate);
    var s2 := AcceptedClick(s1, 3, [X, E, E, O, E, E, E, E, E], evaluate);
    var s3 := AcceptedClick(s2, 1, [X, X, E, O, E, E, E, E, E], evaluate);
    var s4 := AcceptedClick(s3, 4, [X, X, E, O, O, E, E, E, E], evaluate);
  }

  /** One accepted click of a scenario, with the board it produces given explicitly. */
  lemma AcceptedClick(s: State, index: nat, board: seq<CellValue>, evaluate: Evaluator) returns (r: State)
    requires index < |s.board| && Accepts(s, index)
    requires board == s.board[index := MarkFor(s.turn)]
    ensures r == AfterClick(s, index, evaluate)
    ensures r == State(Toggle(s.turn), evaluate(board).status, board)
  {
    r := AfterClick(s, index, evaluate);
  }

  /** After a reset, a click on cell 0 leaves CROSS there, CIRCLE to move and the evaluator's status. */
  lemma ReplayFirstMove(s: State, evaluate: Evaluator)
    requires |s.board| == BoardSize
    ensures var r := AfterClick(AfterReset(s), 0, evaluate);
            r.board == [CrossMark] + Cleared(8) &&
            r.turn == Circle &&
            r.status == evaluate(r.board).status
  {
  }
}
