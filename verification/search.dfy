/**
 Exhaustive minimax search: the value of a board under best play by
 both sides, and a move that attains it.
 */
module Search {
  import opened Boards
  import opened Rules
  import opened Folds

  /** The board after a legal move; it has one empty square fewer. */
  function Next(b: Board, a: Square): (c: Board)
    requires !Terminal(b) && b[a] == Empty
    ensures Count(c, Empty) == Count(b, Empty) - 1
    ensures c[a] != Empty
  {
    Result(b, a).value
  }

  /** Every unfinished board has at least one legal move. */
  lemma MovesNonEmpty(b: Board)
    requires !Terminal(b)
    ensures Moves(b) != []
  {
    assert Empty in multiset(b);
    var k :| 0 <= k < 9 && b[k] == Empty;
    assert k in Moves(b);
  }

  /**
   The value of `b` when X, the maximising player, is to move: the
   utility of a finished board, otherwise the largest of the values of
   O's turn on the boards the legal moves lead to.
   */
  function MaxValue(b: Board): (v: int)
    ensures -1 <= v <= 1
    decreases Count(b, Empty), 2, 0
  {
    if Terminal(b) then Utility(b)
    else
      MovesNonEmpty(b);
      var vs := MinReplies(b, |Moves(b)|);
      MaxOfInRange(vs);
      MaxOf(vs)
  }

  /**
   The value of `b` when O, the minimising player, is to move: the
   utility of a finished board, otherwise the smallest of the values of
   X's turn on the boards the legal moves lead to.
   */
  function MinValue(b: Board): (v: int)
    ensures -1 <= v <= 1
    decreases Count(b, Empty), 2, 0
  {
    if Terminal(b) then Utility(b)
    else
      MovesNonEmpty(b);
      var vs := MaxReplies(b, |Moves(b)|);
      MinOfInRange(vs);
      MinOf(vs)
  }

  /** The value, with O to move, of the board the legal move `a` leads to. */
  function MinReply(b: Board, a: Square): (v: int)
    requires !Terminal(b) && b[a] == Empty
    ensures -1 <= v <= 1
    decreases Count(b, Empty), 0, 0
  {
    MinValue(Next(b, a))
  }

  /** The value, with X to move, of the board the legal move `a` leads to. */
  function MaxReply(b: Board, a: Square): (v: int)
    requires !Terminal(b) && b[a] == Empty
    ensures -1 <= v <= 1
    decreases Count(b, Empty), 0, 0
  {
    MaxValue(Next(b, a))
  }

  /** The values, with O to move, of the boards the first `n` legal moves lead to. */
  function MinReplies(b: Board, n: nat): (vs: seq<int>)
    requires !Terminal(b) && n <= |Moves(b)|
    ensures |vs| == n
    ensures forall i :: 0 <= i < n ==> -1 <= vs[i] <= 1
    decreases Count(b, Empty), 1, n
  {
    if n == 0 then []
    else
      var a := Moves(b)[n - 1];
      assert b[a] == Empty;
      MinReplies(b, n - 1) + [MinReply(b, a)]
  }

  /** The values, with X to move, of the boards the first `n` legal moves lead to. */
  function MaxReplies(b: Board, n: nat): (vs: seq<int>)
    requires !Terminal(b) && n <= |Moves(b)|
    ensures |vs| == n
    ensures forall i :: 0 <= i < n ==> -1 <= vs[i] <= 1
    decreases Count(b, Empty), 1, n
  {
    if n == 0 then []
    else
      var a := Moves(b)[n - 1];
      assert b[a] == Empty;
      MaxReplies(b, n - 1) + [MaxReply(b, a)]
  }

  /** Entry `i` of `MinReplies` is the value of the board the `i`-th legal move leads to. */
  lemma {:induction false} MinRepliesAt(b: Board, n: nat, i: nat)
    requires !Terminal(b) && n <= |Moves(b)| && i < n
    ensures MinReplies(b, n)[i] == MinReply(b, Moves(b)[i])
  {
    if i < n - 1 {
      MinRepliesAt(b, n - 1, i);
    }
  }

  /** Entry `i` of `MaxReplies` is the value of the board the `i`-th legal move leads to. */
  lemma {:induction false} MaxRepliesAt(b: Board, n: nat, i: nat)
    requires !Terminal(b) && n <= |Moves(b)| && i < n
    ensures MaxReplies(b, n)[i] == MaxReply(b, Moves(b)[i])
  {
    if i < n - 1 {
      MaxRepliesAt(b, n - 1, i);
    }
  }

  /**
   `MaxValue` is the utility of a finished board. On an unfinished
   board it is the maximum of `MinValue` over the boards the legal
   moves lead to, and some legal move attains it.
   */
  lemma MaxValueIsBestReply(b: Board)
    ensures Terminal(b) ==> MaxValue(b) == Utility(b)
    ensures !Terminal(b) ==> forall a :: a in Actions(b).value ==> MinValue(Next(b, a)) <= MaxValue(b)
    ensures !Terminal(b) ==> exists a :: a in Actions(b).value && MinValue(Next(b, a)) == MaxValue(b)
  {
    if !Terminal(b) {
      MovesNonEmpty(b);
      var m := Moves(b);
      var vs := MinReplies(b, |m|);
      forall a | a in Actions(b).value
        ensures MinValue(Next(b, a)) <= MaxValue(b)
      {
        var i :| 0 <= i < |m| && m[i] == a;
        MinRepliesAt(b, |m|, i);
      }
      assert vs[0] <= MaxOf(vs);
      var i :| 0 <= i < |m| && vs[i] == MaxOf(vs);
      MinRepliesAt(b, |m|, i);
      assert m[i] in Actions(b).value;
    }
  }

  /**
   `MinValue` is the utility of a finished board. On an unfinished
   board it is the minimum of `MaxValue` over the boards the legal
   moves lead to, and some legal move attains it.
   */
  lemma MinValueIsBestReply(b: Board)
    ensures Terminal(b) ==> MinValue(b) == Utility(b)
    ensures !Terminal(b) ==> forall a :: a in Actions(b).value ==> MinValue(b) <= MaxValue(Next(b, a))
    ensures !Terminal(b) ==> exists a :: a in Actions(b).value && MaxValue(Next(b, a)) == MinValue(b)
  {
    if !Terminal(b) {
      MovesNonEmpty(b);
      var m := Moves(b);
      var vs := MaxReplies(b, |m|);
      forall a | a in Actions(b).value
        ensures MinValue(b) <= MaxValue(Next(b, a))
      {
        var i :| 0 <= i < |m| && m[i] == a;
        MaxRepliesAt(b, |m|, i);
      }
      assert MinOf(vs) <= vs[0];
      var i :| 0 <= i < |m| && vs[i] == MinOf(vs);
      MaxRepliesAt(b, |m|, i);
      assert m[i] in Actions(b).value;
    }
  }

  /**
   An optimal legal move for the player to move. A finished board has
   no player to move and is refused with NoMover. Among equally good
   moves the last one in row-major order is returned, as a later move
   overwrites an earlier one with the same value.
   */
  method Minimax(b: Board) returns (r: Answer<Square>)
    ensures r.Failure? <==> Terminal(b)
    ensures r.Failure? ==> r.error == NoMover
    ensures r.Success? ==> r.value in Actions(b).value
    ensures r.Success? && Player(b) == Success(X) ==> MinValue(Next(b, r.value)) == MaxValue(b)
    ensures r.Success? && Player(b) == Success(O) ==> MaxValue(Next(b, r.value)) == MinValue(b)
  {
    if Terminal(b) {
      return Failure(NoMover);
    }
    var mover := Player(b).value;
    var moves := Moves(b);
    MovesNonEmpty(b);
    var choice := moves[0];
    var best := if mover == X then Floor else Ceiling;
    for i := 0 to |moves|
      invariant choice in moves
      invariant mover == X ==> best == MaxOf(MinReplies(b, i))
      invariant mover == O ==> best == MinOf(MaxReplies(b, i))
      invariant i > 0 && mover == X ==> best == MinReply(b, choice)
      invariant i > 0 && mover == O ==> best == MaxReply(b, choice)
    {
      var a := moves[i];
      if mover == X {
        var v := MinReply(b, a);
        MaxOfSnoc(MinReplies(b, i), v);
        if v >= best {
          best, choice := v, a;
        }
      } else {
        var v := MaxReply(b, a);
        MinOfSnoc(MaxReplies(b, i), v);
        if v <= best {
          best, choice := v, a;
        }
      }
    }
    return Success(choice);
  }
}
