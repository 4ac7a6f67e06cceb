# Tic-tac-toe engine in Dafny

A model of the tic-tac-toe engine in `tictactoe.py`: the starting board,
turn inference (`player`), the legal moves (`actions`), the transition
(`result`), win detection (`winner`), the end test (`terminal`), scoring
(`utility`), and exhaustive minimax search (`minimax` with the mutually
recursive `maxValue` / `minValue`).

The model has four modules:

- `Boards` (`board.dfy`): a cell is `X | O | Empty`. A board is an
  immutable sequence of nine cells in row-major order. The Python move
  `(i, j)` is the square `3 * i + j`, of type `Square` (0..8).
  `Count(b, c)` is the multiset count of `c`. It is the reference
  definition that the X/O tally of `player` and the empty-square count
  of `result` are stated against.
- `Rules` (`rules.dfy`): `player`, `actions`, `result`, `winner`,
  `terminal` and `utility`. The string "The Game is Over." and the
  `ValueError` become an `Answer` whose failure carries a `GameError`.
  The winner scan follows the code's order: rows, then columns, then the
  main diagonal, then the anti-diagonal. The lemma
  `WinnerIsFirstComplete` states what it reports against an independent
  table `Lines` of the eight lines in that order.
- `Folds` (`folds.dfy`): the running maximum and minimum that
  `maxValue` / `minValue` fold over their children's values. Integer
  seeds -2 and 2 stand in for `-math.inf` and `math.inf`. Each fold is
  proved to bound every value, and to be one of the values once some
  value lies on the near side of its seed, as every score does.
- `Search` (`search.dfy`): `MaxValue` / `MinValue` and the `Minimax`
  method. The two value functions are mutually recursive, and their
  termination measure is the number of empty squares.

`MinReply` and `MaxReply` give the value of the board a move leads to.
`MinReplies` and `MaxReplies` list those values over the legal moves in
row-major order.

## Model

| member | source | states |
|---|---|---|
| Boards.InitialState | tictactoe.py:15-21 | every square of the starting board is empty: nine empty squares, no X, no O |
| Boards.CountAfterPlace | tictactoe.py:74 | writing a mark into an empty square moves one unit of count from Empty to that mark and leaves the other mark's count unchanged |
| Rules.Tally | tictactoe.py:32-40 | the square-by-square tally of X and O over the first `k` squares equals the number of X and of O in that prefix |
| Rules.Player | tictactoe.py:24-45 | X on the starting board; the game-over error exactly on finished boards; otherwise O exactly when X has more marks than O, and X exactly when it does not |
| Rules.Moves | tictactoe.py:57-60 | the row-major scan yields a square exactly when that square is empty |
| Rules.Actions | tictactoe.py:48-62 | the game-over error exactly on finished boards; otherwise the set holds a square exactly when it is empty |
| Rules.Result | tictactoe.py:65-76 | an occupied target is refused with CellOccupied. With an empty target the move succeeds exactly when the board is unfinished, and is refused with GameOver on a finished board. The target then holds the mover computed on the input board, and the empty count drops by one |
| Rules.ResultChangesOneSquare | tictactoe.py:69-74 | a move leaves every square other than its target as it was |
| Rules.LineWinnerIsSingletonSet | tictactoe.py:86 | a line is won exactly when its three squares form a one-element set whose element is not Empty; that element is the winner |
| Rules.RowWinnerIsFirst | tictactoe.py:85-87 | the row scan from row `i` returns the mark of the first complete row at or below `i`, and None exactly when none is complete |
| Rules.ColumnWinnerIsFirst | tictactoe.py:90-92 | the column scan from column `i` returns the mark of the first complete column at or right of `i`, and None exactly when none is complete |
| Rules.Winner | tictactoe.py:79-103 | the reported mark is never Empty; which line it comes from is stated by `Rules.WinnerIsFirstComplete` |
| Rules.WinnerIsFirstComplete | tictactoe.py:79-103 | `winner` returns the mark of the first complete line in row, column, main-diagonal, anti-diagonal order, and None exactly when no line is complete |
| Rules.HasEmptyFrom | tictactoe.py:111-114 | the forward scan from square `k` finds an empty square exactly when some square at or after `k` is empty |
| Rules.Terminal | tictactoe.py:106-116 | the game is over exactly when there is a winner or no square is empty |
| Rules.Utility | tictactoe.py:119-128 | 1 exactly when X has won, -1 exactly when O has won, 0 exactly when there is no winner |
| Rules.InitialStateIsOpen | tictactoe.py:28-31 | the starting board has no winner, is not finished and has X to move |
| Rules.ResultAlternates | tictactoe.py:42-45 | on a board where X has as many marks as O or one more, a legal move keeps that balance, and unless it ends the game the turn passes to the other player |
| Rules.ReachableIsBalanced | tictactoe.py:42-45 | every board reached by playing accepted moves from the starting board is balanced and has one empty square fewer per move |
| Folds.MaxOf | tictactoe.py:157-160 | the fold from the low seed is at least every value; it is the seed or one of the values, and one of the values whenever some value is at least the seed, as every score is |
| Folds.MinOf | tictactoe.py:168-171 | the fold from the high seed is at most every value; it is the seed or one of the values, and one of the values whenever some value is at most the seed, as every score is |
| Folds.MaxOfSnoc | tictactoe.py:159-160 | one more step of the maximising fold takes the new value exactly when it is at least the fold so far |
| Folds.MinOfSnoc | tictactoe.py:170-171 | one more step of the minimising fold takes the new value exactly when it is at most the fold so far |
| Search.MovesNonEmpty | tictactoe.py:110-116 | an unfinished board has a legal move, so the seeds never escape a fold |
| Search.MaxValue | tictactoe.py:152-161 | the value with X to move is always -1, 0 or 1 |
| Search.MinValue | tictactoe.py:163-172 | the value with O to move is always -1, 0 or 1 |
| Search.MinReplies | tictactoe.py:159-160 | one value per legal move folded so far, each of them -1, 0 or 1; which value sits at each entry is stated by `Search.MinRepliesAt` |
| Search.MaxReplies | tictactoe.py:170-171 | one value per legal move folded so far, each of them -1, 0 or 1; which value sits at each entry is stated by `Search.MaxRepliesAt` |
| Search.MinRepliesAt | tictactoe.py:159-160 | entry `i` of the folded values is the value, with O to move, of the board the `i`-th legal move leads to |
| Search.MaxRepliesAt | tictactoe.py:170-171 | entry `i` of the folded values is the value, with X to move, of the board the `i`-th legal move leads to |
| Search.MaxValueIsBestReply | tictactoe.py:152-161 | `maxValue` is the utility of a finished board. Otherwise it is at least `minValue` of every child and equal to it for some legal move |
| Search.MinValueIsBestReply | tictactoe.py:163-172 | `minValue` is the utility of a finished board. Otherwise it is at most `maxValue` of every child and equal to it for some legal move |
| Search.Minimax | tictactoe.py:130-149 | on a finished board the search is refused with NoMover. Otherwise it returns a legal move that attains the board's value for the player to move: `minValue` of the child equals `maxValue` of the board when X moves, and the reverse when O moves |

## Left out

- Python's nested lists become a flat row-major sequence, and a move `(i, j)` becomes the square `3 * i + j`. The `Square` type rules out the out-of-range and negative indices the Python code would accept or raise `IndexError` on.
- The string "The Game is Over." that `player` and `actions` return on a finished board is modelled as the error `GameOver`. The `ValueError` of `result` on an occupied square is modelled as `CellOccupied`.
- Rules.Result: on a finished board with an empty target, the Python code writes the string returned by `player` into the cell. The model refuses with `GameOver` instead, because a cell holds only X, O or Empty.
- Search.Minimax: the `NotImplementedError` it raises on a finished board, where `player` names neither X nor O, is modelled as the error `NoMover`.
- `-math.inf` and `math.inf`, the seeds of the folds, become -2 and 2. Every value is -1, 0 or 1, and an unfinished board has at least one move, so a seed is never the answer.
- Search.Minimax: Python iterates a set, so its tie-break among equally good moves depends on set order. The model visits moves in row-major order and keeps the last best one, as the dictionary overwrite does. The contract promises only that the move is optimal, not which optimal move it is.
- Rules.Winner: its own contract says only that the reported mark is X or O. The scan-order promise is the lemma `Rules.WinnerIsFirstComplete`, kept out of the function's contract so that every proof that unfolds `Terminal` stays small.
- `copy.deepcopy`: boards are values, so no aliasing can arise.
- The unused imports `Empty` from `queue` and `re`.
- Whole-game facts, such as a draw under self-play from the starting board. They need the full game tree evaluated, and the proofs do not enumerate it.
- Boards other than 3x3.
