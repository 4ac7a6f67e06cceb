/**
 The tic-tac-toe board as a value: nine squares in row-major order and
 the mark counts the rules are built on.
 */
module Boards {

  /** The content of one square; the Python code stores `None` for an empty one. */
  datatype Cell = X | O | Empty

  /**
   A square of the board, numbered row-major: the square in row i and
   column j (both 0..2) is 3 * i + j. A move of the Python code, the
   pair (i, j), is the square it fills.
   */
  type Square = k: int | 0 <= k < 9

  /** A 3x3 grid stored row-major. */
  type Board = s: seq<Cell> | |s| == 9
    witness [Empty, Empty, Empty, Empty, Empty, Empty, Empty, Empty, Empty]

  /** How many squares of `b` hold `c`. */
  function Count(b: Board, c: Cell): nat
  {
    multiset(b)[c]
  }

  /**
   The turn invariant of every board a game reaches: X moves first and
   the players alternate, so X has as many marks as O or one more.
   */
  predicate Balanced(b: Board)
  {
    Count(b, X) == Count(b, O) || Count(b, X) == Count(b, O) + 1
  }

  /** The starting board. */
  function InitialState(): (b: Board)
    ensures forall k: Square :: b[k] == Empty
    ensures Count(b, Empty) == 9 && Count(b, X) == 0 && Count(b, O) == 0
  {
    [Empty, Empty, Empty, Empty, Empty, Empty, Empty, Empty, Empty]
  }

  /** Writing `c` over an empty square moves one unit of count from Empty to `c`. */
  lemma CountAfterPlace(b: Board, k: Square, c: Cell)
    requires b[k] == Empty && c != Empty
    ensures Count(b[k := c], Empty) == Count(b, Empty) - 1
    ensures Count(b[k := c], c) == Count(b, c) + 1
    ensures forall d :: d != c && d != Empty ==> Count(b[k := c], d) == Count(b, d)
  {
    assert b == b[..k] + [Empty] + b[k + 1..];
    assert b[k := c] == b[..k] + [c] + b[k + 1..];
  }
}
