/**
 * Facts about the nine-cell board `cellValues`: how many marks of each kind
 * it holds, the balance between the two players' marks, and the rule that a
 * marked cell stays marked.
 */
module Board {
  import opened Constants

  /** The number of cells of `board` that hold `v`. */
  function Count(board: seq<CellValue>, v: CellValue): (n: nat)
    ensures n <= |board|
    ensures n == 0 <==> v !in board
  {
    if board == [] then 0
    else (if board[0] == v then 1 else 0) + Count(board[1..], v)
  }

  /** Writing `w` at `i` changes the count of `v` by what left and what arrived. */
  lemma {:induction false} CountUpdate(board: seq<CellValue>, i: nat, w: CellValue, v: CellValue)
    requires i < |board|
    ensures Count(board[i := w], v)
            == Count(board, v) - (if board[i] == v then 1 else 0) + (if w == v then 1 else 0)
  {
    if i == 0 {
      assert board[i := w][1..] == board[1..];
    } else {
      assert board[i := w][1..] == board[1..][i - 1 := w];
      CountUpdate(board[1..], i - 1, w, v);
    }
  }

  /** A board with every cell unmarked. */
  function Cleared(n: nat): (board: seq<CellValue>)
    ensures |board| == n
    ensures forall i :: 0 <= i < n ==> board[i] == Empty
  {
    seq(n, _ => Empty)
  }

  /**
   * The players' marks are balanced with the turn: CROSS has played as often
   * as CIRCLE or once more, and it is CROSS's turn exactly when the counts are
   * equal.
   */
  predicate Balanced(board: seq<CellValue>, turn: Turn) {
    var crosses := Count(board, CrossMark);
    var circles := Count(board, CircleMark);
    (crosses == circles || crosses == circles + 1) && (turn == Cross <==> crosses == circles)
  }

  /** The number of marked cells. */
  function Marked(board: seq<CellValue>): nat {
    Count(board, CrossMark) + Count(board, CircleMark)
  }

  /** On a balanced board the turn is given by the parity of the moves made. */
  lemma BalancedTurnParity(board: seq<CellValue>, turn: Turn)
    requires Balanced(board, turn)
    ensures turn == Cross <==> Marked(board) % 2 == 0
  {
  }

  /** `after` keeps every mark of `before`: cells only go from empty to a mark. */
  predicate Extends(before: seq<CellValue>, after: seq<CellValue>) {
    |before| == |after| &&
    forall i :: 0 <= i < |before| && before[i] != Empty ==> after[i] == before[i]
  }

  lemma ExtendsTransitive(a: seq<CellValue>, b: seq<CellValue>, c: seq<CellValue>)
    requires Extends(a, b) && Extends(b, c)
    ensures Extends(a, c)
  {
  }
}
