/**
 * What the controller asks the page to show, as a sequence of render
 * actions, and the two fail-fast contract checks of the rendering helpers
 * (updateStatusGame and highlightCells). A thrown error is an `Outcome`.
 */
module View {
  import opened Wrappers
  import opened Constants
  import opened Evaluation

  /** One visible change to the page. */
  datatype Render =
    | MarkCell(index: nat, mark: Turn)      // the clicked cell takes the mover's class
    | ShowTurn(turn: Turn)                  // the current-turn indicator
    | ShowStatus(status: GameStatus)        // the status text
    | HighlightCell(position: int)          // the 'win' class on a winning cell
    | ShowReplay
    | HideReplay
    | ClearCell(index: nat)                 // every class removed from a cell

  /** The two errors the rendering helpers throw. */
  datatype ContractError = MissingStatus | InvalidWinPositions

  datatype Outcome = Completed | Thrown(error: ContractError)

  /** The actions emitted, up to a throw if there is one, and how it ended. */
  datatype Response = Response(actions: seq<Render>, outcome: Outcome)

  /** updateStatusGame: show the status text, or throw when there is no status. */
  function UpdateStatusGame(status: Option<GameStatus>): (r: Response)
    ensures r.outcome.Thrown? <==> status.None?
    ensures r.outcome.Thrown? ==> r == Response([], Thrown(MissingStatus))
    ensures status.Some? ==> r.actions == [ShowStatus(status.value)]
  {
    match status
    case None => Response([], Thrown(MissingStatus))
    case Some(s) => Response([ShowStatus(s)], Completed)
  }

  /** One highlight action per position, in the order given. */
  function Highlights(positions: seq<int>): (actions: seq<Render>)
    ensures |actions| == |positions|
    ensures forall k :: 0 <= k < |positions| ==> actions[k] == HighlightCell(positions[k])
  {
    seq(|positions|, k requires 0 <= k < |positions| => HighlightCell(positions[k]))
  }

  /**
   * What highlightCells does: throw unless it is given exactly three
   * positions, otherwise highlight each of them.
   */
  function HighlightResponse(winPositions: Option<seq<int>>): (r: Response)
    ensures r.outcome.Completed? <==> winPositions.Some? && |winPositions.value| == 3
    ensures r.outcome.Thrown? ==> r == Response([], Thrown(InvalidWinPositions))
    ensures r.outcome.Completed? ==>
              |r.actions| == 3 &&
              forall k :: 0 <= k < 3 ==> r.actions[k] == HighlightCell(winPositions.value[k])
  {
    if winPositions.None? || |winPositions.value| != 3 then Response([], Thrown(InvalidWinPositions))
    else Response(Highlights(winPositions.value), Completed)
  }

  /** highlightCells: the shape check, then a loop over the positions. */
  method HighlightCells(winPositions: Option<seq<int>>) returns (r: Response)
    ensures r == HighlightResponse(winPositions)
  {
    if winPositions.None? || |winPositions.value| != 3 {
      return Response([], Thrown(InvalidWinPositions));
    }
    var positions := winPositions.value;
    var lit: seq<Render> := [];
    for k := 0 to |positions|
      invariant lit == Highlights(positions[..k])
    {
      assert positions[..k + 1] == positions[..k] + [positions[k]];
      lit := lit + [HighlightCell(positions[k])];
    }
    assert positions[..|positions|] == positions;
    r := Response(lit, Completed);
  }

  /** The cells' visual state cleared, cell by cell. */
  function ClearAll(cellCount: nat): (actions: seq<Render>)
    ensures |actions| == cellCount
    ensures forall i :: 0 <= i < cellCount ==> actions[i] == ClearCell(i)
  {
    seq(cellCount, i requires 0 <= i < cellCount => ClearCell(i))
  }

  /** The loop of resetGame over the cell elements, clearing each one's classes. */
  method ClearCells(cellCount: nat) returns (actions: seq<Render>)
    ensures actions == ClearAll(cellCount)
  {
    actions := [];
    for i := 0 to cellCount
      invariant actions == ClearAll(i)
    {
      actions := actions + [ClearCell(i)];
    }
  }

  /**
   * The switch on the new status after a move: the status text always; on a
   * draw the replay button; on a win the highlight of the winning line and
   * the replay button. A missing status or a malformed winning line throws.
   */
  function StatusResponse(report: GameReport): (r: Response)
    ensures r.outcome.Completed? <==> ReportWellShaped(report)
    ensures r.outcome.Thrown? ==>
              r.outcome.error == (if report.status.None? then MissingStatus else InvalidWinPositions)
    ensures ShowReplay in r.actions <==>
              r.outcome.Completed? && report.status.Some? && IsOver(report.status.value)
    ensures forall a :: a in r.actions && a.HighlightCell? ==>
              report.status.Some? && IsWin(report.status.value)
    ensures report.status.Some? ==> |r.actions| >= 1 && r.actions[0] == ShowStatus(report.status.value)
    ensures ReportWellShaped(report) && IsWin(report.status.value) ==>
              r.actions == [ShowStatus(report.status.value)] + Highlights(report.winPositions.value) + [ShowReplay]
    ensures report.status == Some(Ended) ==> r.actions == [ShowStatus(Ended), ShowReplay]
    ensures report.status.Some? && !IsOver(report.status.value) ==> r.actions == [ShowStatus(report.status.value)]
    ensures report.status.Some? && IsWin(report.status.value) && !ReportWellShaped(report) ==>
              r.actions == [ShowStatus(report.status.value)]
    ensures report.status.None? ==> r.actions == []
  {
    match report.status
    case None => UpdateStatusGame(report.status)
    case Some(status) =>
      var shown := UpdateStatusGame(report.status);
      if status == Ended then
        Response(shown.actions + [ShowReplay], Completed)
      else if IsWin(status) then
        var lit := HighlightResponse(report.winPositions);
        if lit.outcome.Thrown? then Response(shown.actions, lit.outcome)
        else Response(shown.actions + lit.actions + [ShowReplay], Completed)
      else
        shown
  }

  /**
   * The switch of handleClickCell on the status it has just stored. It goes
   * case by case like StatusResponse, but it runs the HighlightCells loop
   * and is proved equal to that function. It is kept apart from
   * HandleClickCell so that each proof stays small enough for the verifier.
   */
  method SwitchOnStatus(game: GameReport) returns (r: Response)
    ensures r == StatusResponse(game)
  {
    var shown := UpdateStatusGame(game.status);
    if shown.outcome.Thrown? {
      return shown;
    }
    match game.status.value {
      case Ended =>
        r := Response(shown.actions + [ShowReplay], Completed);
      case OWin | XWin =>
        var lit := HighlightCells(game.winPositions);
        if lit.outcome.Thrown? {
          return Response(shown.actions, lit.outcome);
        }
        r := Response(shown.actions + lit.actions + [ShowReplay], Completed);
      case _ =>
        r := shown;
    }
  }
}
