/**
 * The bounds-guarded objective evaluation of src/evaluate.h. The objective
 * callback is a partial function that need not be defined outside the box:
 * Dafny then checks that the guard never hands it an out-of-box point.
 */
module Evaluation {
  import opened Wrappers
  import opened Numbers

  datatype EvalError = NaNObjective

  /** Calls the objective once and rejects a NaN result as an error. */
  function Evaluate(fcall: seq<real> -> Double, par: seq<real>): (r: Result<Double, EvalError>)
    ensures r.Failure? <==> fcall(par).NaN?
    ensures r.Success? ==> r.value == fcall(par) && !r.value.NaN?
  {
    var value := fcall(par);
    if value.NaN? then Failure(NaNObjective) else Success(value)
  }

  /** Every element lies within its bounds; a bound itself is inside. */
  predicate InBox(candidate: seq<real>, lower: seq<real>, upper: seq<real>)
  {
    && |candidate| <= |lower| && |candidate| <= |upper|
    && forall i :: 0 <= i < |candidate| ==> lower[i] <= candidate[i] <= upper[i]
  }

  predicate OutOfBoxAt(candidate: seq<real>, lower: seq<real>, upper: seq<real>, i: int)
    requires 0 <= i < |candidate| && |candidate| <= |lower| && |candidate| <= |upper|
  {
    candidate[i] < lower[i] || candidate[i] > upper[i]
  }

  /** The scan of `evaluateObjective`: the first index from `i` on whose element is out of bounds. */
  function FirstOutOfBox(candidate: seq<real>, lower: seq<real>, upper: seq<real>, i: nat): (r: Option<nat>)
    requires |candidate| <= |lower| && |candidate| <= |upper| && i <= |candidate|
    ensures r.None? <==> forall k :: i <= k < |candidate| ==> lower[k] <= candidate[k] <= upper[k]
    ensures r.Some? ==> i <= r.value < |candidate| && OutOfBoxAt(candidate, lower, upper, r.value)
    ensures r.Some? ==> forall k :: i <= k < r.value ==> !OutOfBoxAt(candidate, lower, upper, k)
    decreases |candidate| - i
  {
    if i == |candidate| then None
    else if candidate[i] < lower[i] || candidate[i] > upper[i] then Some(i)
    else FirstOutOfBox(candidate, lower, upper, i + 1)
  }

  /**
   * Scores `candidate`: +infinity as soon as one element is out of bounds,
   * otherwise the objective's value. The objective is called only in the box.
   */
  function EvaluateObjective(candidate: seq<real>, objective: seq<real> --> Double,
                             lower: seq<real>, upper: seq<real>): (r: Double)
    requires |candidate| <= |lower| && |candidate| <= |upper|
    requires forall x :: InBox(x, lower, upper) ==> objective.requires(x)
    ensures (exists i :: 0 <= i < |candidate| && OutOfBoxAt(candidate, lower, upper, i)) ==> r == PosInf
    ensures InBox(candidate, lower, upper) ==> r == objective(candidate)
  {
    match FirstOutOfBox(candidate, lower, upper, 0)
    case Some(_) => PosInf
    case None =>
      assert InBox(candidate, lower, upper);
      objective(candidate)
  }

  /** Scores every row with the guarded evaluation, row by row. */
  method EvaluateObjectives(population: seq<seq<real>>, objective: seq<real> --> Double,
                            lower: seq<real>, upper: seq<real>) returns (scores: seq<Double>)
    requires forall i :: 0 <= i < |population| ==> |population[i]| <= |lower| && |population[i]| <= |upper|
    requires forall x :: InBox(x, lower, upper) ==> objective.requires(x)
    ensures |scores| == |population|
    ensures forall i :: 0 <= i < |population| ==>
              scores[i] == EvaluateObjective(population[i], objective, lower, upper)
    ensures forall i :: 0 <= i < |population| ==>
              (scores[i] == PosInf || InBox(population[i], lower, upper))
  {
    var a := new Double[|population|];
    for i := 0 to |population|
      invariant forall k :: 0 <= k < i ==> a[k] == EvaluateObjective(population[k], objective, lower, upper)
    {
      a[i] := EvaluateObjective(population[i], objective, lower, upper);
    }
    scores := a[..];
  }
}
