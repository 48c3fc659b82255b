/**
 Scores used by the decoders: integers standing in for log-probabilities,
 extended with the -inf that seeds the unused beam slots.
 */
module Scores {

  /** A (cumulative) log-probability: a finite integer, or minus infinity. */
  datatype Score = NegInf | Fin(value: int)

  /** Addition in the extended domain: -inf absorbs every other value. */
  function Add(a: Score, b: Score): (r: Score)
    ensures r.Fin? <==> a.Fin? && b.Fin?
    ensures r.Fin? ==> r.value == a.value + b.value
  {
    if a.Fin? && b.Fin? then Fin(a.value + b.value) else NegInf
  }

  /** The order on scores: -inf is below every finite score. */
  predicate Le(a: Score, b: Score)
  {
    a.NegInf? || (b.Fin? && a.value <= b.value)
  }

  predicate Lt(a: Score, b: Score)
  {
    !Le(b, a)
  }

  /** A row of finite scores. */
  function Lift(row: seq<int>): (r: seq<Score>)
    ensures |r| == |row|
    ensures forall i :: 0 <= i < |row| ==> r[i] == Fin(row[i])
  {
    seq(|row|, i requires 0 <= i < |row| => Fin(row[i]))
  }

  /**
   The index of the first maximal element.  This is the tie rule of both
   `torch.argmax` (first maximal index) and Python's `max(..., key=...)`,
   which replaces its candidate only on a strictly greater key.
   */
  function FirstMax(xs: seq<Score>): (r: nat)
    requires |xs| > 0
    ensures r < |xs|
    ensures forall j :: 0 <= j < |xs| ==> Le(xs[j], xs[r])
    ensures forall j :: 0 <= j < r ==> Lt(xs[j], xs[r])
    decreases |xs|
  {
    if |xs| == 1 then 0
    else
      var m := FirstMax(xs[..|xs| - 1]);
      if Lt(xs[m], xs[|xs| - 1]) then |xs| - 1 else m
  }

  /** The two properties of FirstMax determine it. */
  lemma FirstMaxUnique(xs: seq<Score>, i: nat)
    requires i < |xs|
    requires forall j :: 0 <= j < |xs| ==> Le(xs[j], xs[i])
    requires forall j :: 0 <= j < i ==> Lt(xs[j], xs[i])
    ensures FirstMax(xs) == i
  {
  }

  /** Subtracting one constant from a whole row moves no maximum. */
  lemma FirstMaxShift(row: seq<int>, shifted: seq<int>, c: int)
    requires |row| > 0 && |shifted| == |row|
    requires forall t :: 0 <= t < |row| ==> shifted[t] == row[t] - c
    ensures FirstMax(Lift(shifted)) == FirstMax(Lift(row))
  {
    FirstMaxUnique(Lift(shifted), FirstMax(Lift(row)));
  }
}
