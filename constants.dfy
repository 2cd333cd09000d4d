/**
 * The enumerations of the game (CELL_VALUE, TURN and GAME_STATUS).
 * Their concrete string values are not modelled, only their distinct members.
 */
module Constants {

  /** A board cell: unmarked (the empty string) or one of the two marks. */
  datatype CellValue = Empty | CrossMark | CircleMark

  /** Whose move it is. */
  datatype Turn = Cross | Circle

  datatype GameStatus = Loading | Playing | Ended | XWin | OWin

  /** The board always has nine cells, indexed 0..8 row by row. */
  const BoardSize: nat := 9

  /** A status with a winning line to highlight. */
  predicate IsWin(status: GameStatus) {
    status == XWin || status == OWin
  }

  /** A status after which the replay button is offered. */
  predicate IsOver(status: GameStatus) {
    status == Ended || IsWin(status)
  }
}
