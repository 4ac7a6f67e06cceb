/**
 The running maximum and minimum the search folds over the values of a
 board's moves, seeded with values below and above every score.
 */
module Folds {

  /** Seeds of the folds, standing in for minus and plus infinity. */
  const Floor := -2
  const Ceiling := 2

  /**
   The left fold of `vs` from Floor that keeps the running value unless
   the next one is at least as large. It bounds every element from above
   and is Floor or an element; once some element is at least Floor, as
   every score is, it is an element, so it is the maximum of `vs`.
   */
  function MaxOf(vs: seq<int>): (v: int)
    ensures forall i :: 0 <= i < |vs| ==> vs[i] <= v
    ensures v == Floor || v in vs
    ensures (exists i :: 0 <= i < |vs| && Floor <= vs[i]) ==> v in vs
    ensures Floor <= v
  {
    if vs == [] then Floor
    else
      var sofar := MaxOf(vs[..|vs| - 1]);
      var here := vs[|vs| - 1];
      assert forall i :: 0 <= i < |vs| - 1 ==> vs[..|vs| - 1][i] == vs[i];
      if sofar <= here then here else sofar
  }

  /**
   The left fold of `vs` from Ceiling that keeps the running value unless
   the next one is at most as large. It bounds every element from below
   and is Ceiling or an element; once some element is at most Ceiling, as
   every score is, it is an element, so it is the minimum of `vs`.
   */
  function MinOf(vs: seq<int>): (v: int)
    ensures forall i :: 0 <= i < |vs| ==> v <= vs[i]
    ensures v == Ceiling || v in vs
    ensures (exists i :: 0 <= i < |vs| && vs[i] <= Ceiling) ==> v in vs
    ensures v <= Ceiling
  {
    if vs == [] then Ceiling
    else
      var sofar := MinOf(vs[..|vs| - 1]);
      var here := vs[|vs| - 1];
      assert forall i :: 0 <= i < |vs| - 1 ==> vs[..|vs| - 1][i] == vs[i];
      if here <= sofar then here else sofar
  }

  /** Extending the sequence by one value takes that value unless the fold so far is larger. */
  lemma MaxOfSnoc(vs: seq<int>, x: int)
    ensures MaxOf(vs + [x]) == if MaxOf(vs) <= x then x else MaxOf(vs)
  {
    assert (vs + [x])[..|vs|] == vs;
  }

  /** Extending the sequence by one value takes that value unless the fold so far is smaller. */
  lemma MinOfSnoc(vs: seq<int>, x: int)
    ensures MinOf(vs + [x]) == if x <= MinOf(vs) then x else MinOf(vs)
  {
    assert (vs + [x])[..|vs|] == vs;
  }

  /** On a non-empty sequence of scores the maximum is a score. */
  lemma MaxOfInRange(vs: seq<int>)
    requires vs != [] && forall i :: 0 <= i < |vs| ==> -1 <= vs[i] <= 1
    ensures -1 <= MaxOf(vs) <= 1
  {
    assert vs[0] <= MaxOf(vs);
  }

  /** On a non-empty sequence of scores the minimum is a score. */
  lemma MinOfInRange(vs: seq<int>)
    requires vs != [] && forall i :: 0 <= i < |vs| ==> -1 <= vs[i] <= 1
    ensures -1 <= MinOf(vs) <= 1
  {
    assert MinOf(vs) <= vs[0];
  }
}
