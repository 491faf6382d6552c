/**
 * Helpers of the DE routine (src/utils.cpp and src/utils.h): index
 * sequences, random choice of distinct rows, the alternating difference of
 * chosen rows, the termination test, integer draws, box trimming and the
 * plain (unguarded) evaluation of a population.
 *
 * Randomness is lifted into the inputs: every call of R's `unif_rand` is a
 * given draw `u` with `0 <= u < 1`.
 */
module Utils {
  import opened Numbers

  predicate Unit(u: real)
  {
    0.0 <= u < 1.0
  }

  predicate AllUnit(draws: seq<real>)
  {
    forall k :: 0 <= k < |draws| ==> Unit(draws[k])
  }

  predicate Distinct(s: seq<int>)
  {
    forall i, j :: 0 <= i < j < |s| ==> s[i] != s[j]
  }

  // ---------------------------------------------------------------- createSequence

  /** The integers `from, from + 1, ..., to - 1`. */
  function Sequence(from: int, to: int): (r: seq<int>)
    requires from <= to
  {
    seq(to - from, i => from + i)
  }

  /** Fills a fresh vector of `to - from` slots with `from + i` at slot `i`. */
  method CreateSequence(from: int, to: int) returns (r: seq<int>)
    requires from <= to
    ensures |r| == to - from
    ensures forall i :: 0 <= i < |r| ==> r[i] == from + i
    ensures r == Sequence(from, to)
  {
    var retval := new int[to - from];
    for i := 0 to retval.Length
      invariant forall k :: 0 <= k < i ==> retval[k] == from + k
    {
      retval[i] := from + i;
    }
    r := retval[..];
  }

  // ---------------------------------------------------------------- _runifIntWrapper

  /** `floor(u * n)`: an observation of Uniform[0, n) from the draw `u`. */
  function RunifInt(n: int, u: real): (r: int)
    requires Unit(u)
    ensures n > 0 ==> 0 <= r < n
    ensures n == 0 ==> r == 0
  {
    assert n > 0 ==> u * (n as real) < n as real by {
      if n > 0 {
        assert (1.0 - u) * (n as real) > 0.0;
      }
    }
    (u * (n as real)).Floor
  }

  // ---------------------------------------------------------------- chooseRandom

  /** `s` with the elements at `i` and `j` exchanged. */
  function SwapAt(s: seq<int>, i: int, j: int): (r: seq<int>)
    requires 0 <= i < |s| && 0 <= j < |s|
    ensures |r| == |s| && multiset(r) == multiset(s)
    ensures r[i] == s[j] && r[j] == s[i]
    ensures forall k :: 0 <= k < |s| && k != i && k != j ==> r[k] == s[k]
  {
    s[i := s[j]][j := s[i]]
  }

  /**
   * The shuffle pass of `std::random_shuffle` from position `i` on: position
   * `i` is exchanged with position `_runifIntWrapper(i + 1)`, drawn from
   * `draws[i - 1]`, for `i = 1, ..., |s| - 1`.
   */
  function ShuffleFrom(s: seq<int>, draws: seq<real>, i: nat): (r: seq<int>)
    requires 1 <= i
    requires |s| <= |draws| + 1 && AllUnit(draws)
    ensures |r| == |s|
    ensures multiset(r) == multiset(s)
    decreases |s| - i
  {
    if i >= |s| then s
    else ShuffleFrom(SwapAt(s, i, RunifInt(i + 1, draws[i - 1])), draws, i + 1)
  }

  /** Exchanging two positions keeps distinct elements distinct. */
  lemma SwapKeepsDistinct(s: seq<int>, i: int, j: int)
    requires 0 <= i < |s| && 0 <= j < |s| && Distinct(s)
    ensures Distinct(SwapAt(s, i, j))
  {
    var r := SwapAt(s, i, j);
    forall p, q | 0 <= p < q < |r| ensures r[p] != r[q] {
      var p' := if p == i then j else if p == j then i else p;
      var q' := if q == i then j else if q == j then i else q;
      assert r[p] == s[p'] && r[q] == s[q'] && p' != q';
    }
  }

  /** The shuffle of distinct elements holds distinct elements. */
  lemma {:induction false} ShuffleKeepsDistinct(s: seq<int>, draws: seq<real>, i: nat)
    requires 1 <= i
    requires |s| <= |draws| + 1 && AllUnit(draws)
    requires Distinct(s)
    ensures Distinct(ShuffleFrom(s, draws, i))
    decreases |s| - i
  {
    if i < |s| {
      var j := RunifInt(i + 1, draws[i - 1]);
      SwapKeepsDistinct(s, i, j);
      ShuffleKeepsDistinct(SwapAt(s, i, j), draws, i + 1);
    }
  }

  /** `std::random_shuffle` over the whole sequence: a permutation of `s`. */
  function Shuffle(s: seq<int>, draws: seq<real>): (r: seq<int>)
    requires |s| <= |draws| + 1 && AllUnit(draws)
    ensures |r| == |s| && multiset(r) == multiset(s)
  {
    ShuffleFrom(s, draws, 1)
  }

  /** `std::vector::resize(count)`: truncates, or pads with zeros. */
  function Resized(s: seq<int>, count: nat): (r: seq<int>)
    ensures |r| == count
    ensures forall i :: 0 <= i < count && i < |s| ==> r[i] == s[i]
    ensures forall i :: |s| <= i < count ==> r[i] == 0
  {
    if count <= |s| then s[..count] else s + seq(count - |s|, _ => 0)
  }

  /** `std::random_shuffle` over the whole array, in place. */
  method ShuffleInPlace(a: array<int>, draws: seq<real>)
    requires a.Length <= |draws| + 1 && AllUnit(draws)
    modifies a
    ensures a[..] == Shuffle(old(a[..]), draws)
  {
    var i := 1;
    while i < a.Length
      invariant 1 <= i
      invariant ShuffleFrom(a[..], draws, i) == Shuffle(old(a[..]), draws)
    {
      var j := RunifInt(i + 1, draws[i - 1]);
      ghost var before := a[..];
      if i != j {
        a[i], a[j] := a[j], a[i];
      }
      assert a[..] == before[i := before[j]][j := before[i]];
      i := i + 1;
    }
  }

  /**
   * Shuffles a copy of `input` and keeps its first `count` elements. The
   * caller's `input` is a value and stays as it was.
   */
  method ChooseRandom(input: seq<int>, count: int, draws: seq<real>) returns (chosen: seq<int>)
    requires 0 <= count
    requires |input| <= |draws| + 1 && AllUnit(draws)
    ensures chosen == Resized(Shuffle(input, draws), count)
    ensures |chosen| == count
    ensures count <= |input| ==> forall i :: 0 <= i < count ==> chosen[i] in input
    ensures count <= |input| && Distinct(input) ==> Distinct(chosen)
  {
    var copied := new int[|input|];
    for i := 0 to copied.Length
      invariant copied[..i] == input[..i]
    {
      copied[i] := input[i];
    }
    assert copied[..] == input;
    ShuffleInPlace(copied, draws);
    var shuffled := copied[..];
    chosen := Resized(shuffled, count);
    if count <= |input| && Distinct(input) {
      ShuffleKeepsDistinct(input, draws, 1);
    }
    if count <= |input| {
      forall k | 0 <= k < count ensures chosen[k] in input {
        assert chosen[k] == shuffled[k];
        assert shuffled[k] in multiset(shuffled);
      }
    }
  }

  // ---------------------------------------------------------------- _terminate

  /**
   * The evolution stops when the termination predicate returns an empty
   * vector or one whose first element converts to `true` (is nonzero; NaN
   * converts to `true`).
   */
  predicate Terminate(answer: seq<Double>): (stop: bool)
    ensures |answer| == 0 ==> stop
    ensures |answer| > 0 && answer[0] == Finite(0.0) ==> !stop
    ensures |answer| > 0 && answer[0] != Finite(0.0) ==> stop
  {
    |answer| == 0 || answer[0] != Finite(0.0)
  }

  // ---------------------------------------------------------------- vectorsDifference

  /** Row `row` exists and has an entry at `element`. */
  predicate RowIn(population: seq<seq<real>>, row: int, element: int)
  {
    0 <= row < |population| && 0 <= element < |population[row]|
  }

  predicate RowsIn(population: seq<seq<real>>, indices: seq<int>, element: int)
  {
    forall i :: 0 <= i < |indices| ==> RowIn(population, indices[i], element)
  }

  /** The entry of the `i`-th listed row, with sign `+` at even `i` and `-` at odd `i`. */
  function Signed(population: seq<seq<real>>, indices: seq<int>, element: int, i: int): real
    requires RowsIn(population, indices, element) && 0 <= i < |indices|
  {
    if i % 2 == 0 then population[indices[i]][element] else -population[indices[i]][element]
  }

  /** Alternating sum `p[i0][e] - p[i1][e] + p[i2][e] - ...` over the listed rows. */
  function AlternatingSum(population: seq<seq<real>>, indices: seq<int>, element: int): (r: real)
    requires RowsIn(population, indices, element)
    ensures |indices| == 0 ==> r == 0.0
    ensures |indices| == 1 ==> r == population[indices[0]][element]
    decreases |indices|
  {
    if |indices| == 0 then 0.0
    else
      AlternatingSum(population, indices[..|indices| - 1], element)
        + Signed(population, indices, element, |indices| - 1)
  }

  /** Rows that agree at `element` cancel in pairs: an even count sums to 0, an odd count to the common entry. */
  lemma {:induction false} AlternatingSumOfEqualEntries(population: seq<seq<real>>, indices: seq<int>, element: int, v: real)
    requires RowsIn(population, indices, element)
    requires forall i :: 0 <= i < |indices| ==> population[indices[i]][element] == v
    ensures AlternatingSum(population, indices, element) == if |indices| % 2 == 0 then 0.0 else v
    decreases |indices|
  {
    if |indices| > 0 {
      var prefix := indices[..|indices| - 1];
      assert forall i :: 0 <= i < |prefix| ==> prefix[i] == indices[i];
      AlternatingSumOfEqualEntries(population, prefix, element, v);
    }
  }

  /** Appending one row adds its entry with the sign of its position. */
  lemma AlternatingSumSnoc(population: seq<seq<real>>, indices: seq<int>, a: int, element: int)
    requires RowsIn(population, indices, element) && RowIn(population, a, element)
    ensures RowsIn(population, indices + [a], element)
    ensures AlternatingSum(population, indices + [a], element)
            == AlternatingSum(population, indices, element)
               + (if |indices| % 2 == 0 then population[a][element] else -population[a][element])
  {
    var t := indices + [a];
    assert RowsIn(population, t, element);
    assert t[..|t| - 1] == indices;
  }

  /** Adding one more pair `[a, b]` after an even-length prefix adds `p[a][e] - p[b][e]`. */
  lemma AlternatingSumAppendPair(population: seq<seq<real>>, indices: seq<int>, a: int, b: int, element: int)
    requires RowsIn(population, indices, element)
    requires RowIn(population, a, element) && RowIn(population, b, element)
    requires |indices| % 2 == 0
    ensures RowsIn(population, indices + [a, b], element)
    ensures AlternatingSum(population, indices + [a, b], element)
            == AlternatingSum(population, indices, element) + population[a][element] - population[b][element]
  {
    var t := indices + [a];
    AlternatingSumSnoc(population, indices, a, element);
    AlternatingSumSnoc(population, t, b, element);
    assert t + [b] == indices + [a, b];
  }

  /** For two rows the alternating sum is their plain difference. */
  lemma AlternatingSumOfPair(population: seq<seq<real>>, a: int, b: int, element: int)
    requires RowIn(population, a, element) && RowIn(population, b, element)
    ensures RowsIn(population, [a, b], element)
    ensures AlternatingSum(population, [a, b], element) == population[a][element] - population[b][element]
  {
    AlternatingSumAppendPair(population, [], a, b, element);
    assert [] + [a, b] == [a, b];
  }

  /** Accumulates the listed rows' entries, flipping between `+=` and `-=`. */
  method VectorsDifference(population: seq<seq<real>>, indices: seq<int>, element: int) returns (r: real)
    requires RowsIn(population, indices, element)
    ensures r == AlternatingSum(population, indices, element)
    ensures |indices| == 0 ==> r == 0.0
  {
    r := 0.0;
    var minus := false;
    for i := 0 to |indices|
      invariant minus == (i % 2 == 1)
      invariant r == AlternatingSum(population, indices[..i], element)
    {
      assert indices[..i + 1][..i] == indices[..i];
      var row := indices[i];
      if minus {
        r := r - population[row][element];
      } else {
        r := r + population[row][element];
      }
      minus := !minus;
    }
    assert indices[..|indices|] == indices;
  }

  // ---------------------------------------------------------------- trimVector

  /** First clamp to the upper limit, then to the lower limit. */
  function TrimElement(x: real, upper: real, lower: real): (r: real)
    ensures lower <= upper ==> lower <= r <= upper
    ensures lower <= x <= upper ==> r == x
    ensures x > upper && lower <= upper ==> r == upper
    ensures x < lower || upper < lower ==> r == lower
  {
    var capped := if x > upper then upper else x;
    if capped < lower then lower else capped
  }

  function Trim(v: seq<real>, upper: seq<real>, lower: seq<real>): (r: seq<real>)
    requires |upper| == |v| && |lower| == |v|
    ensures |r| == |v|
    ensures forall i :: 0 <= i < |v| && lower[i] <= upper[i] ==> lower[i] <= r[i] <= upper[i]
    ensures forall i :: 0 <= i < |v| && lower[i] <= v[i] <= upper[i] ==> r[i] == v[i]
    ensures forall i :: 0 <= i < |v| && v[i] > upper[i] && lower[i] <= upper[i] ==> r[i] == upper[i]
    ensures forall i :: 0 <= i < |v| && v[i] < lower[i] ==> r[i] == lower[i]
    ensures forall i :: 0 <= i < |v| && upper[i] < lower[i] ==> r[i] == lower[i]
  {
    seq(|v|, i requires 0 <= i < |v| => TrimElement(v[i], upper[i], lower[i]))
  }

  lemma TrimIdempotent(v: seq<real>, upper: seq<real>, lower: seq<real>)
    requires |upper| == |v| && |lower| == |v|
    ensures Trim(Trim(v, upper, lower), upper, lower) == Trim(v, upper, lower)
  {
  }

  // ---------------------------------------------------------------- evaluateObjectives

  /** Scores every row with the objective callback, row by row. */
  method EvaluateObjectives(objective: seq<real> -> Double, population: seq<seq<real>>)
    returns (scores: seq<Double>)
    ensures |scores| == |population|
    ensures forall i :: 0 <= i < |population| ==> scores[i] == objective(population[i])
  {
    var a := new Double[|population|];
    for i := 0 to |population|
      invariant forall k :: 0 <= k < i ==> a[k] == objective(population[k])
    {
      a[i] := objective(population[i]);
    }
    scores := a[..];
  }
}
