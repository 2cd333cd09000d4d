# Tic-tac-toe game controller, modelled in Dafny

This project models the game-session controller of a browser tic-tac-toe game
(`js/main-delegation.js`). The controller holds three pieces of module-level
state: whose turn it is (`currentTurn`), the game status (`gameStatus`) and the
nine-cell board (`cellValues`). A click on a cell is either ignored or applied.
An applied click marks the cell, flips the turn, asks the win/draw evaluator
`checkGameStatus` for the new status and stores it. It then decides what the
page shows: the status text, the winning cells and the replay button. The
replay button resets the state.

Files and modules:

- `constants.dfy` (`Constants`): the cell values, turns and game statuses, as enumerations.
- `evaluation.dfy` (`Evaluation`): the shape of the evaluator's report. The
  evaluator itself is a parameter (`Evaluator`), because its code
  (`js/utils.js`) is not part of this model. `WellShaped` states the output
  shape the controller's own checks rely on: a status is always present, and a
  win carries exactly three positions.
- `board.dfy` (`Board`): mark counts, the balance invariant between the marks and
  the turn, and the "a marked cell stays marked" relation.
- `view.dfy` (`View`): the page updates as a sequence of `Render` actions. It also
  holds the two fail-fast checks (`updateStatusGame`, `highlightCells`) and the
  status switch of the click handler. A thrown error is an `Outcome`
  (`Thrown(MissingStatus)`, `Thrown(InvalidWinPositions)`). The actions emitted
  before the throw are kept.
- `session.dfy` (`Session`): the state as a value (`State`), what a click and a
  reset do to it (`AfterClick`, `AfterReset`), what they show (`ClickResponse`,
  `ResetResponse`), and the properties of the game proved about them.
- `scenarios.dfy` (`Scenarios`): two concrete games played through the
  `Session` functions.
- `main_delegation.dfy` (`MainDelegation`): the controller as a class
  `GameController`. Its fields are `currentTurn`, `gameStatus` and the array
  `cellValues`. Its methods `HandleClickCell`, `AddAndToggleTurn` and `ResetGame`
  update them in place. Each method is proved to follow the `Session` functions.
  The object invariant `Valid()` says the board has nine cells and the marks
  are balanced with the turn.

`gameStatus` has type `Option<GameStatus>`. The code stores `game.status`
without checking it, so an evaluator that gives no status leaves `undefined`
there. After that, every later click is refused.

Three behaviours of the code are worth stating, because a reader might expect otherwise:

- A malformed report throws only after the board, the turn and the status
  have been updated (js/main-delegation.js:42-46), and those updates stay.
- The first move need not leave LOADING: line 46 stores whatever status the
  evaluator reports, so if it reports LOADING or PLAYING the game goes on.
- The code never checks the index range; its only caller (lines 112-113) passes a
  cell's `data-idx`, which line 103 sets to the position of one of the cells.

## Model

| member | source | states |
|---|---|---|
| `Session.Initial` | js/main-delegation.js:17-20 | the initial state: CROSS to move, LOADING, and nine cells that are all empty |
| `Session.MarkFor` | js/main-delegation.js:42 | the value written is never empty; it is the CROSS value exactly when it is CROSS's turn |
| `Session.Toggle` | js/main-delegation.js:26 | the turn after the flip always differs from the turn before |
| `Session.AfterClick` | js/main-delegation.js:35-46 | a refused click (marked cell, or status neither PLAYING nor LOADING) leaves the whole state unchanged; an accepted click writes the mover's mark at `index`, leaves the other cells unchanged, flips the turn and stores the evaluator's status for the new board; the board keeps its length and every earlier mark |
| `Session.ClickResponse` | js/main-delegation.js:35-67 | a refused click shows nothing; an accepted one first marks the cell, then shows the new turn, then (when the evaluator gave a status) the new status text; it completes exactly when the evaluator's report is well shaped. The full response for each kind of result is stated by `ClickHighlightsWinningLine`, `ClickShowsDraw`, `ClickShowsOngoing`, `ClickMissingStatus` and `ClickMalformedWin` |
| `Session.AfterReset` | js/main-delegation.js:124-127 | whatever the prior state: LOADING, CROSS to move, and every cell empty with the board's length kept |
| `Session.ResetResponse` | js/main-delegation.js:128-143 | reset never throws; it shows LOADING first, then clears every cell once in index order, then shows CROSS as the turn, and hides the replay button last; it never shows the replay button |
| `Session.ResetRestoresInitial` | js/main-delegation.js:124-127 | on a nine-cell board, a reset gives exactly the initial state, and resetting twice equals resetting once |
| `Session.ResetIsBalanced` | js/main-delegation.js:125-127 | after a reset the marks are balanced with the turn |
| `Session.ClickPreservesBalance` | js/main-delegation.js:26-42 | every click keeps the invariant: the CROSS count equals the CIRCLE count or exceeds it by one, and it is CROSS's turn exactly when the counts are equal |
| `Session.ClickAddsOneMark` | js/main-delegation.js:42 | an accepted click adds exactly one mark to the board |
| `Session.PlayPreservesBalance` | js/main-delegation.js:35-46 | any sequence of clicks keeps the balance invariant and never removes or changes a mark |
| `Session.ReachableIsBalanced` | js/main-delegation.js:17-46 | every state reached by clicks after a reset is balanced |
| `Session.FinishedGameIsFrozen` | js/main-delegation.js:36-40 | once the status is neither PLAYING nor LOADING, no sequence of clicks changes board, turn or status |
| `Session.ClickCompletes` | js/main-delegation.js:45-79 | if the evaluator always reports a status, and three positions for a win, a click never throws |
| `Session.ClickShowsReplayIffOver` | js/main-delegation.js:48-66 | a click shows the replay button if and only if it is accepted, completes, and the new status is ENDED, X_WIN or O_WIN |
| `Session.ClickHighlightsOnlyWins` | js/main-delegation.js:55-60 | a click highlights cells only when the new status is X_WIN or O_WIN |
| `Session.ClickHighlightsWinningLine` | js/main-delegation.js:42-59 | an accepted click that ends in a well-shaped win emits exactly: the mark, the new turn, the win status, the three winning cells in order, and the replay button |
| `Session.ClickShowsDraw` | js/main-delegation.js:42-52 | an accepted click that ends in a draw emits exactly: the mark, the new turn, the ENDED status, and the replay button |
| `Session.ClickShowsOngoing` | js/main-delegation.js:42-65 | an accepted click after which the game goes on emits exactly: the mark, the new turn, and the new status |
| `Session.ClickMissingStatus` | js/main-delegation.js:42-70 | an accepted click for which the evaluator gives no status emits exactly the mark and the new turn, then throws `MissingStatus` (the source's 'not has status') |
| `Session.ClickMalformedWin` | js/main-delegation.js:42-78 | an accepted click that ends in a win without exactly three positions emits exactly the mark, the new turn and the win status, then throws `InvalidWinPositions` (the source's 'invalid win position') before the replay button |
| `Scenarios.TopRowScenario` | js/main-delegation.js:35-46 | from the start, clicks on 0, 3, 1, 4, 2 leave CROSS on the top row and CIRCLE on 3 and 4, CIRCLE to move, and the evaluator's verdict on that board stored (provided the evaluator let the game go on after each earlier move) |
| `Scenarios.ReplayFirstMove` | js/main-delegation.js:124-127 | after a reset, a click on cell 0 gives CROSS there and eight empty cells, CIRCLE to move, and the evaluator's status for that board |
| `Board.Count` | js/main-delegation.js:20 | a mark count never exceeds the board length, and is zero exactly when the value is absent |
| `Board.CountUpdate` | js/main-delegation.js:42 | writing one cell changes each count by what left the cell and what arrived |
| `Board.BalancedTurnParity` | js/main-delegation.js:26 | on a balanced board it is CROSS's turn exactly when an even number of moves has been made |
| `View.UpdateStatusGame` | js/main-delegation.js:69-74 | throws `MissingStatus` (the source's 'not has status') exactly when there is no status; otherwise shows that status |
| `View.HighlightResponse` | js/main-delegation.js:76-86 | succeeds exactly when given exactly three positions, and then highlights those three, in order; otherwise throws and shows nothing |
| `View.HighlightCells` | js/main-delegation.js:76-86 | the loop over the positions produces exactly the actions of `HighlightResponse` |
| `View.ClearCells` | js/main-delegation.js:130-135 | the loop over the cell elements clears each cell once, in order |
| `View.StatusResponse` | js/main-delegation.js:48-66 | completes exactly when the report is well shaped; the error is `MissingStatus` when there is no status and `InvalidWinPositions` otherwise; the replay button is shown exactly when it completes with ENDED, X_WIN or O_WIN; highlights happen only on X_WIN or O_WIN. The full action sequence is fixed for every case: a well-shaped win shows the status, highlights the report's three positions in order and then shows the replay button; a draw shows the status and the replay button; a status that lets the game go on, or a win with malformed positions, shows only the status; a missing status shows nothing |
| `View.SwitchOnStatus` | js/main-delegation.js:48-66 | the switch on the stored status produces exactly `StatusResponse` |
| `MainDelegation.GameController.constructor` | js/main-delegation.js:17-20 | the fresh controller holds the initial state and satisfies the invariant |
| `MainDelegation.GameController.AddAndToggleTurn` | js/main-delegation.js:22-33 | flips the turn; shows the old mark on the clicked cell and the new turn on the indicator |
| `MainDelegation.GameController.HandleClickCell` | js/main-delegation.js:35-67 | updates the fields in place as `AfterClick` says, emits `ClickResponse`, keeps the same array and keeps the invariant |
| `MainDelegation.GameController.ResetGame` | js/main-delegation.js:124-144 | replaces the board with a new all-empty array and sets the state as `AfterReset` says; emits `ResetResponse`; keeps the invariant |

## Left out

- Page work is not modelled: `classList` and `textContent` changes, the element selectors, `dataset.idx` and `parseInt` in `initCellElementList` (js/main-delegation.js:100-115). The page is seen only through the `Render` actions the controller emits.
- Event-listener wiring and the start-up function (js/main-delegation.js:109-121, 161-165) are browser plumbing and are not modelled.
- The body of `checkGameStatus` is not modelled, because `js/utils.js` is not part of this model. The evaluator is a parameter of the controller, and any function of the board may be supplied. Its expected output shape (`WellShaped`) is used only as a hypothesis of `ClickCompletes`.
- The string values of `CELL_VALUE`, `GAME_STATUS` and `TURN` are not modelled, because `js/constants.js` is not part of this model. They are enumerations here. Every status value is taken to be a non-empty string, so `!status` holds only for a missing status.
- The unused global `isGameEnded` (js/main-delegation.js:18) is not modelled.
- The code decides "already clicked" from the cell element's CROSS/CIRCLE class (line 36). The model reads the board cell instead. The code sets and clears the class and the board value together (lines 24/42 and 127/134), so the two agree.
- The code guards each element lookup (`if (statusElement)`, `if (cell)`, `if (currTurnELement)`, `if (replayBtn)`, and the early return at line 131). The model assumes the page has all of them: nine cell elements, the status text, the turn indicator and the replay button.
- HandleClickCell: requires `index < 9`. The code's only caller passes the index of one of the nine cell elements. A larger index would grow the JavaScript array; that is not modelled.
- HighlightCells: emits one highlight action for every position it is given. Whether a cell element exists at that position is the page's concern.
