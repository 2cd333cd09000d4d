/**
 * The result of the win/draw evaluator `checkGameStatus`. The evaluator's code
 * is not part of this model: the controller receives it as a parameter and
 * only the shape of its answer is described here.
 */
module Evaluation {
  import opened Wrappers
  import opened Constants

  /**
   * What the evaluator reports for a board: a status (possibly missing) and
   * the winning positions (possibly missing, of any length).
   */
  datatype GameReport = GameReport(status: Option<GameStatus>, winPositions: Option<seq<int>>)

  /** The evaluator, a pure function of the board. */
  type Evaluator = seq<CellValue> -> GameReport

  /**
   * The shape the controller's fail-fast checks expect: a status is always
   * present, and a win comes with exactly three positions.
   */
  predicate ReportWellShaped(report: GameReport) {
    report.status.Some? &&
    (IsWin(report.status.value) ==> report.winPositions.Some? && |report.winPositions.value| == 3)
  }

  /** An evaluator whose every report on a nine-cell board is well shaped. */
  ghost predicate WellShaped(evaluate: Evaluator) {
    forall board: seq<CellValue> :: |board| == BoardSize ==> ReportWellShaped(evaluate(board))
  }
}
