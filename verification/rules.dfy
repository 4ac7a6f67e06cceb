/**
 The rules of the game: whose turn it is, which moves are legal, what a
 move does, who has won and when the game is over.
 */
module Rules {
  import opened Boards

  datatype Option<+T> = None | Some(value: T)

  /**
   Why a query refused to answer. `GameOver` replaces the string
   "The Game is Over." that the Python code returns on a finished board;
   `CellOccupied` is its `ValueError("Not Possible Action")`; `NoMover` is
   the `NotImplementedError` the search raises when `player` names
   neither X nor O.
   */
  datatype GameError = GameOver | CellOccupied | NoMover

  datatype Answer<+T> = Success(value: T) | Failure(error: GameError)

  /**
   The eight lines of the board, in the order the winner scan visits
   them: the three rows, the three columns, the main diagonal and the
   anti-diagonal.
   */
  const Lines: seq<(Square, Square, Square)> := [
    (0, 1, 2), (3, 4, 5), (6, 7, 8),
    (0, 3, 6), (1, 4, 7), (2, 5, 8),
    (0, 4, 8),
    (2, 4, 6)
  ]

  /** A line is complete when its three squares hold the same mark. */
  predicate Complete(b: Board, l: (Square, Square, Square))
  {
    b[l.0] != Empty && b[l.0] == b[l.1] && b[l.1] == b[l.2]
  }

  /** One line test of the scan: the winning mark of three squares, if they hold the same mark. */
  function LineWinner(c0: Cell, c1: Cell, c2: Cell): (w: Option<Cell>)
  {
    if c0 != Empty && c0 == c1 && c1 == c2 then Some(c0) else None
  }

  /**
   The scan's line test counts distinct contents: a line is won exactly
   when its three squares form a one-element set whose element is not
   the empty square, and the winner is that element.
   */
  lemma LineWinnerIsSingletonSet(c0: Cell, c1: Cell, c2: Cell)
    ensures LineWinner(c0, c1, c2).Some? <==> |{c0, c1, c2}| == 1 && c0 != Empty
    ensures LineWinner(c0, c1, c2).Some? ==> {c0, c1, c2} == {LineWinner(c0, c1, c2).value}
  {
    if c0 != c1 {
      assert |{c0, c1}| == 2;
      assert |{c0, c1, c2}| >= 2 by {
        assert {c0, c1} <= {c0, c1, c2};
      }
    } else if c1 != c2 {
      assert |{c1, c2}| == 2;
      assert |{c0, c1, c2}| >= 2 by {
        assert {c1, c2} <= {c0, c1, c2};
      }
    }
  }

  /** The first complete row at or below row `i`, scanning downwards. */
  function RowWinner(b: Board, i: nat): (w: Option<Cell>)
    requires i <= 3
    decreases 3 - i
  {
    if i == 3 then None
    else
      var w := LineWinner(b[3 * i], b[3 * i + 1], b[3 * i + 2]);
      if w.Some? then w else RowWinner(b, i + 1)
  }

  /** The first complete column at or right of column `i`, scanning rightwards. */
  function ColumnWinner(b: Board, i: nat): (w: Option<Cell>)
    requires i <= 3
    decreases 3 - i
  {
    if i == 3 then None
    else
      var w := LineWinner(b[i], b[i + 3], b[i + 6]);
      if w.Some? then w else ColumnWinner(b, i + 1)
  }

  /**
   The mark of the first complete line, scanning rows, then columns,
   then the main diagonal, then the anti-diagonal; None when no line is
   complete.
   */
  function Winner(b: Board): (w: Option<Cell>)
    ensures w.Some? ==> w.value != Empty
  {
    var rows := RowWinner(b, 0);
    if rows.Some? then rows
    else
      var columns := ColumnWinner(b, 0);
      if columns.Some? then columns
      else
        var main := LineWinner(b[0], b[4], b[8]);
        if main.Some? then main
        else LineWinner(b[2], b[4], b[6])
  }

  /**
   `l` is the first complete line of `b` among `Lines[lo..hi]` and `w`
   is its mark; with `w` None, no line in that range is complete.
   */
  predicate FirstComplete(b: Board, lo: nat, hi: nat, w: Option<Cell>)
    requires lo <= hi <= |Lines|
  {
    && (w.None? <==> forall k :: lo <= k < hi ==> !Complete(b, Lines[k]))
    && (w.Some? ==>
          exists k :: lo <= k < hi && Complete(b, Lines[k]) && w.value == b[Lines[k].0]
            && forall k' :: lo <= k' < k ==> !Complete(b, Lines[k']))
  }

  /** The row scan from row `i` reports the first complete row at or below it. */
  lemma {:induction false} RowWinnerIsFirst(b: Board, i: nat)
    requires i <= 3
    ensures FirstComplete(b, i, 3, RowWinner(b, i))
    decreases 3 - i
  {
    if i < 3 {
      assert Lines[i] == (3 * i, 3 * i + 1, 3 * i + 2) by { assert i == 0 || i == 1 || i == 2; }
      RowWinnerIsFirst(b, i + 1);
    }
  }

  /** The column scan from column `i` reports the first complete column at or right of it. */
  lemma {:induction false} ColumnWinnerIsFirst(b: Board, i: nat)
    requires i <= 3
    ensures FirstComplete(b, 3 + i, 6, ColumnWinner(b, i))
    decreases 3 - i
  {
    if i < 3 {
      assert Lines[3 + i] == (i, i + 3, i + 6) by { assert i == 0 || i == 1 || i == 2; }
      ColumnWinnerIsFirst(b, i + 1);
    }
  }

  /**
   `Winner` reports the mark of the first complete line in scan order,
   and None exactly when no line is complete.
   */
  lemma WinnerIsFirstComplete(b: Board)
    ensures FirstComplete(b, 0, |Lines|, Winner(b))
  {
    RowWinnerIsFirst(b, 0);
    ColumnWinnerIsFirst(b, 0);
    assert Lines[6] == (0, 4, 8) && Lines[7] == (2, 4, 6);
  }

  /** Whether square `k` or a later one is empty, scanning forward. */
  function HasEmptyFrom(b: Board, k: nat): (r: bool)
    requires k <= 9
    ensures r <==> exists j :: k <= j < 9 && b[j] == Empty
    decreases 9 - k
  {
    k < 9 && (b[k] == Empty || HasEmptyFrom(b, k + 1))
  }

  /** The game is over once some line is complete or no square is empty. */
  function Terminal(b: Board): (r: bool)
    ensures r <==> Winner(b).Some? || Count(b, Empty) == 0
  {
    Winner(b).Some? || !HasEmptyFrom(b, 0)
  }

  /** The X and O counts of the first `k` squares, tallied one square at a time. */
  function Tally(b: Board, k: nat): (t: (nat, nat))
    requires k <= 9
    ensures t.0 == multiset(b[..k])[X] && t.1 == multiset(b[..k])[O]
  {
    if k == 0 then (0, 0)
    else
      var t := Tally(b, k - 1);
      assert b[..k] == b[..k - 1] + [b[k - 1]];
      if b[k - 1] == X then (t.0 + 1, t.1)
      else if b[k - 1] == O then (t.0, t.1 + 1)
      else t
  }

  /**
   Whose turn it is: X on the starting board; GameOver on a finished
   board; otherwise O exactly when X has more marks than O.
   */
  function Player(b: Board): (r: Answer<Cell>)
    ensures r == Failure(GameOver) <==> Terminal(b)
    ensures r == Success(O) <==> !Terminal(b) && Count(b, X) > Count(b, O)
    ensures r == Success(X) <==> !Terminal(b) && Count(b, X) <= Count(b, O)
    ensures b == InitialState() ==> r == Success(X)
  {
    if b == InitialState() then Success(X)
    else if Terminal(b) then Failure(GameOver)
    else
      var t := Tally(b, 9);
      assert b[..9] == b;
      if t.0 > t.1 then Success(O) else Success(X)
  }

  /** The empty squares among the first `k` squares of `b`, in row-major order. */
  function MovesBelow(b: Board, k: nat): (m: seq<Square>)
    requires k <= 9
    ensures forall a {:trigger a in m} :: a in m <==> 0 <= a < k && b[a] == Empty
  {
    if k == 0 then []
    else
      var earlier := MovesBelow(b, k - 1);
      if b[k - 1] == Empty then earlier + [k - 1] else earlier
  }

  /** The empty squares of `b`, in row-major order. */
  function Moves(b: Board): (m: seq<Square>)
    ensures forall a {:trigger a in m} :: a in m <==> 0 <= a < 9 && b[a] == Empty
    ensures forall i :: 0 <= i < |m| ==> b[m[i]] == Empty
  {
    var m := MovesBelow(b, 9);
    assert forall i :: 0 <= i < |m| ==> m[i] in m;
    m
  }

  /** The legal moves: every empty square, or GameOver on a finished board. */
  function Actions(b: Board): (r: Answer<set<Square>>)
    ensures r.Failure? <==> Terminal(b)
    ensures r.Failure? ==> r.error == GameOver
    ensures r.Success? ==> forall a: Square {:trigger a in r.value} :: a in r.value <==> b[a] == Empty
  {
    if Terminal(b) then Failure(GameOver)
    else Success(set a | a in Moves(b))
  }

  /**
   The board after the player to move marks the square `a` addresses.
   An occupied square is refused with CellOccupied; an empty square of a
   finished board is refused with GameOver, as no player is to move.
   */
  function Result(b: Board, a: Square): (r: Answer<Board>)
    ensures b[a] != Empty ==> r == Failure(CellOccupied)
    ensures b[a] == Empty ==> (r.Success? <==> !Terminal(b))
    ensures b[a] == Empty && Terminal(b) ==> r == Failure(GameOver)
    ensures r.Success? ==>
      && r.value[a] == Player(b).value
      && Count(r.value, Empty) == Count(b, Empty) - 1
  {
    if b[a] != Empty then Failure(CellOccupied)
    else
      match Player(b)
      case Failure(e) => Failure(e)
      case Success(p) =>
        CountAfterPlace(b, a, p);
        Success(b[a := p])
  }

  /** A move changes the square it addresses and no other. */
  lemma ResultChangesOneSquare(b: Board, a: Square, k: Square)
    requires Result(b, a).Success?
    ensures Result(b, a).value[k] == if k == a then Player(b).value else b[k]
  {
  }

  /** The score of a board from X's side: 1 if X has won, -1 if O has, 0 otherwise. */
  function Utility(b: Board): (u: int)
    ensures u == 1 <==> Winner(b) == Some(X)
    ensures u == -1 <==> Winner(b) == Some(O)
    ensures u == 0 <==> Winner(b).None?
  {
    if Winner(b) == Some(X) then 1
    else if Winner(b) == Some(O) then -1
    else 0
  }

  /** The starting board has no winner, is not finished and has X to move. */
  lemma InitialStateIsOpen()
    ensures Winner(InitialState()).None?
    ensures !Terminal(InitialState())
    ensures Player(InitialState()) == Success(X)
  {
    var b := InitialState();
    WinnerIsFirstComplete(b);
    assert b[4] == Empty;
  }

  /**
   A legal move on a balanced, unfinished board keeps the board
   balanced, and unless it ends the game the turn passes to the other
   player.
   */
  lemma ResultAlternates(b: Board, a: Square)
    requires Balanced(b) && !Terminal(b) && b[a] == Empty
    ensures Result(b, a).Success?
    ensures Balanced(Result(b, a).value)
    ensures !Terminal(Result(b, a).value) ==> Player(Result(b, a).value) != Player(b)
  {
    var p := Player(b).value;
    CountAfterPlace(b, a, p);
  }

  /**
   The board reached by playing `moves` in order from the starting
   board, or the error of the first move `Result` refuses.
   */
  function Replay(moves: seq<Square>): (r: Answer<Board>)
  {
    if moves == [] then Success(InitialState())
    else
      match Replay(moves[..|moves| - 1])
      case Failure(e) => Failure(e)
      case Success(b) => Result(b, moves[|moves| - 1])
  }

  /**
   Every board a game reaches is balanced, and each move played so far
   filled exactly one square.
   */
  lemma {:induction false} ReachableIsBalanced(moves: seq<Square>)
    requires Replay(moves).Success?
    ensures Balanced(Replay(moves).value)
    ensures Count(Replay(moves).value, Empty) == 9 - |moves|
  {
    if moves != [] {
      var prefix := moves[..|moves| - 1];
      ReachableIsBalanced(prefix);
      var b := Replay(prefix).value;
      ResultAlternates(b, moves[|moves| - 1]);
    }
  }
}
