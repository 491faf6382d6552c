/**
 * The double-precision values the optimizer compares. Candidate elements are
 * modelled as `real`; scores returned by the objective callback may also be
 * infinite or NaN, and the optimizer only ever compares them with `<`.
 */
module Numbers {

  datatype Double = Finite(value: real) | PosInf | NegInf | NaN

  /** IEEE-754 `a < b`: false whenever either side is NaN. */
  predicate Less(a: Double, b: Double): (lt: bool)
    ensures lt ==> !a.NaN? && !b.NaN? && a != b
    ensures a.Finite? && b.Finite? ==> (lt <==> a.value < b.value)
    ensures a.PosInf? || b.NegInf? ==> !lt
    ensures !a.NaN? && !b.NaN? && a != b && (a.NegInf? || b.PosInf?) ==> lt
  {
    match a
    case NaN => false
    case PosInf => false
    case NegInf => !b.NaN? && !b.NegInf?
    case Finite(x) => b.PosInf? || (b.Finite? && x < b.value)
  }

  /** "Not worse": strictly smaller or the very same value. */
  predicate NotAbove(a: Double, b: Double)
  {
    Less(a, b) || a == b
  }

  predicate NoNaN(s: seq<Double>)
  {
    forall i :: 0 <= i < |s| ==> !s[i].NaN?
  }

  lemma LessIsStrictOrder(a: Double, b: Double, c: Double)
    ensures !Less(a, a)
    ensures Less(a, b) ==> !Less(b, a)
    ensures Less(a, b) && Less(b, c) ==> Less(a, c)
    ensures NotAbove(a, b) && NotAbove(b, c) ==> NotAbove(a, c)
  {
  }

  /** Without NaN, `<` is total: of two different values one is below the other. */
  lemma LessIsTotalWithoutNaN(a: Double, b: Double)
    requires !a.NaN? && !b.NaN?
    ensures Less(a, b) || a == b || Less(b, a)
  {
  }

  /** The smallest score of a non-empty score vector (the later one on ties). */
  function Minimum(s: seq<Double>): (m: Double)
    requires |s| > 0
    ensures m in s
    ensures NoNaN(s) ==> forall i :: 0 <= i < |s| ==> NotAbove(m, s[i])
  {
    if |s| == 1 then s[0]
    else
      var rest := Minimum(s[1..]);
      if Less(s[0], rest) then s[0] else rest
  }

  /**
   * When no entry of `newer` is above the matching entry of NaN-free `older`,
   * `newer` is NaN-free too and its minimum is not above that of `older`.
   */
  lemma MinimumOfPointwiseNotAbove(newer: seq<Double>, older: seq<Double>)
    requires |newer| == |older| > 0 && NoNaN(older)
    requires forall c :: 0 <= c < |older| ==> NotAbove(newer[c], older[c])
    ensures NoNaN(newer)
    ensures NotAbove(Minimum(newer), Minimum(older))
  {
    assert NoNaN(newer) by {
      forall c | 0 <= c < |newer| ensures !newer[c].NaN? {
        assert NotAbove(newer[c], older[c]);
      }
    }
    var oldMin := Minimum(older);
    var j :| 0 <= j < |older| && older[j] == oldMin;
    LessIsStrictOrder(Minimum(newer), newer[j], oldMin);
  }
}
