/**
 * The DE/x/y/z routine `deflex_urgent` of src/deflex.cpp: generations of
 * cyclic crossover, trimming and strict-improvement selection, recorded in an
 * append-only history of populations and score vectors.
 *
 * The objective callback is a parameter; the termination callback is given by
 * its answers (`answers[g - 1]` is what it returns for generation `g`); every
 * random draw of a generation is given in a `RowDraws` per candidate.
 */
module Deflex {
  import opened Numbers
  import opened Utils
  import Evaluation

  /** The draws one candidate consumes in one generation, in the order the source makes them. */
  datatype RowDraws = RowDraws(shuffle: seq<real>, start: real, cross: seq<real>)

  /** The fixed inputs of a run (`z` is accepted and never used, as in the source). */
  datatype Config = Config(objective: seq<real> -> Double, upper: seq<real>, lower: seq<real>,
                           cr: real, f: real, x: int, y: int, z: int)

  /** A population together with one score per row. */
  datatype State = State(population: seq<seq<real>>, scores: seq<Double>)

  /** Two random vectors per difference, plus a random base vector when `x == 0`. */
  function RandVectorCount(x: int, y: int): (n: int)
    ensures (n - 1) % 2 == 0 <==> x == 0
  {
    y * 2 + (if x == 0 then 1 else 0)
  }

  function Dimension(cfg: Config): nat
  {
    |cfg.upper|
  }

  /** Bounds of equal length, and at least one chosen vector to serve as the base. */
  predicate ValidConfig(cfg: Config)
  {
    |cfg.lower| == |cfg.upper| && RandVectorCount(cfg.x, cfg.y) >= 1
  }

  predicate IsMatrix(population: seq<seq<real>>, d: nat)
  {
    forall i :: 0 <= i < |population| ==> |population[i]| == d
  }

  predicate ValidState(cfg: Config, s: State)
  {
    IsMatrix(s.population, Dimension(cfg)) && |s.scores| == |s.population|
  }

  predicate RowDrawsOk(rd: RowDraws, n: nat, d: nat)
  {
    n <= |rd.shuffle| + 1 && AllUnit(rd.shuffle) && Unit(rd.start) && |rd.cross| == d
  }

  predicate DrawsOk(gd: seq<RowDraws>, n: nat, d: nat)
  {
    |gd| == n && forall c :: 0 <= c < n ==> RowDrawsOk(gd[c], n, d)
  }

  // ---------------------------------------------------------------- the cyclic walk

  /** The step at which the walk from `start` reaches index `e`. */
  function Offset(e: int, start: int, d: int): (k: int)
    requires 0 <= e < d && 0 <= start < d
    ensures 0 <= k < d
  {
    if start <= e then e - start else e - start + d
  }

  /** The index the walk `j := (j + 1) % d` from `start` is at after `k` steps. */
  function WalkAt(start: int, k: int, d: int): int
    requires d > 0
  {
    (start + k) % d
  }

  /**
   * The walk from `start` reaches every index of `[0, d)` at exactly one of
   * its `d` steps: step `k` is at an index whose offset is `k`, and index `e`
   * is where step `Offset(e, start, d)` is.
   */
  lemma CyclicWalkVisitsEachIndexOnce(start: int, d: int)
    requires 0 <= start < d
    ensures forall k :: 0 <= k < d ==> 0 <= WalkAt(start, k, d) < d && Offset(WalkAt(start, k, d), start, d) == k
    ensures forall e :: 0 <= e < d ==> WalkAt(start, Offset(e, start, d), d) == e
  {
    forall k | 0 <= k < d
      ensures 0 <= WalkAt(start, k, d) < d && Offset(WalkAt(start, k, d), start, d) == k
    {
      WrapOnce(start + k, d);
    }
    forall e | 0 <= e < d
      ensures WalkAt(start, Offset(e, start, d), d) == e
    {
      WrapOnce(start + Offset(e, start, d), d);
    }
  }

  lemma WrapOnce(a: int, d: int)
    requires 0 <= a < 2 * d
    ensures a % d == if a < d then a else a - d
  {
    if a < d {
      assert a == d * 0 + a;
    } else {
      assert a == d * 1 + (a - d);
    }
  }

  // ---------------------------------------------------------------- trial construction

  predicate TrialArgsOk(population: seq<seq<real>>, c: int, base: int, diffs: seq<int>,
                        start: int, cross: seq<real>, d: nat)
  {
    && IsMatrix(population, d)
    && 0 <= c < |population| && 0 <= base < |population|
    && (forall i :: 0 <= i < |diffs| ==> 0 <= diffs[i] < |population|)
    && |cross| == d && (d == 0 || 0 <= start < d)
  }

  lemma RowsOfMatrix(population: seq<seq<real>>, rows: seq<int>, d: nat, e: int)
    requires IsMatrix(population, d) && 0 <= e < d
    requires forall i :: 0 <= i < |rows| ==> 0 <= rows[i] < |population|
    ensures RowsIn(population, rows, e)
  {
  }

  /** The mutated value of element `e`: the base row's entry plus `F` times the difference. */
  function Mutant(population: seq<seq<real>>, base: int, diffs: seq<int>, f: real, e: int): real
    requires RowIn(population, base, e) && RowsIn(population, diffs, e)
  {
    population[base][e] + f * AlternatingSum(population, diffs, e)
  }

  /**
   * The untrimmed trial: element `e` is reached at step `Offset(e, start, d)`
   * and is mutated when that step's draw is below `cr`, else copied from row `c`.
   */
  function Trial(population: seq<seq<real>>, c: int, base: int, diffs: seq<int>,
                 start: int, cross: seq<real>, cr: real, f: real, d: nat): (t: seq<real>)
    requires TrialArgsOk(population, c, base, diffs, start, cross, d)
    ensures |t| == d
    ensures forall e :: 0 <= e < d ==> RowsIn(population, diffs, e)
    ensures forall e :: 0 <= e < d ==>
              t[e] == (if cross[Offset(e, start, d)] < cr then Mutant(population, base, diffs, f, e) else population[c][e])
  {
    seq(d, e requires 0 <= e < d =>
      RowsOfMatrix(population, diffs, d, e);
      if cross[Offset(e, start, d)] < cr then Mutant(population, base, diffs, f, e)
      else population[c][e])
  }

  /** Fills a fresh trial vector in place, walking cyclically from `start`. */
  method BuildTrial(population: seq<seq<real>>, c: int, base: int, diffs: seq<int>,
                    start: int, cross: seq<real>, cr: real, f: real, d: nat) returns (trial: seq<real>)
    requires TrialArgsOk(population, c, base, diffs, start, cross, d)
    ensures trial == Trial(population, c, base, diffs, start, cross, cr, f, d)
  {
    ghost var spec := Trial(population, c, base, diffs, start, cross, cr, f, d);
    var t := new real[d];
    var j := start;
    for k := 0 to d
      invariant k < d ==> j == if start + k < d then start + k else start + k - d
      invariant forall e :: 0 <= e < d && Offset(e, start, d) < k ==> t[e] == spec[e]
    {
      assert Offset(j, start, d) == k;
      RowsOfMatrix(population, diffs, d, j);
      if cross[k] < cr || k == d {
        var diff := VectorsDifference(population, diffs, j);
        t[j] := population[base][j] + f * diff;
      } else {
        t[j] := population[c][j];
      }
      assert t[j] == spec[j];
      WrapOnce(j + 1, d);
      j := (j + 1) % d;
    }
    trial := t[..];
  }

  /** Step `k` of the source's walk sets element `(start + k) % d` from draw `cross[k]`. */
  lemma TrialStep(population: seq<seq<real>>, c: int, base: int, diffs: seq<int>,
                  start: int, cross: seq<real>, cr: real, f: real, d: nat, k: int)
    requires TrialArgsOk(population, c, base, diffs, start, cross, d)
    requires 0 <= k < d
    ensures var e := WalkAt(start, k, d);
      && 0 <= e < d
      && RowsIn(population, diffs, e)
      && Trial(population, c, base, diffs, start, cross, cr, f, d)[e]
         == if cross[k] < cr then Mutant(population, base, diffs, f, e) else population[c][e]
  {
    CyclicWalkVisitsEachIndexOnce(start, d);
    RowsOfMatrix(population, diffs, d, WalkAt(start, k, d));
  }

  /** With every draw at or above `cr` no element is mutated: the trial is row `c` itself. */
  lemma NoCrossoverKeepsRow(population: seq<seq<real>>, c: int, base: int, diffs: seq<int>,
                            start: int, cross: seq<real>, cr: real, f: real, d: nat)
    requires TrialArgsOk(population, c, base, diffs, start, cross, d)
    requires forall k :: 0 <= k < d ==> cross[k] >= cr
    ensures Trial(population, c, base, diffs, start, cross, cr, f, d) == population[c]
  {
  }

  /** With every draw below `cr` every element is mutated. */
  lemma FullCrossoverMutatesAll(population: seq<seq<real>>, c: int, base: int, diffs: seq<int>,
                                start: int, cross: seq<real>, cr: real, f: real, d: nat)
    requires TrialArgsOk(population, c, base, diffs, start, cross, d)
    requires forall k :: 0 <= k < d ==> cross[k] < cr
    ensures forall e :: 0 <= e < d ==>
              && RowsIn(population, diffs, e)
              && Trial(population, c, base, diffs, start, cross, cr, f, d)[e] == Mutant(population, base, diffs, f, e)
  {
    forall e | 0 <= e < d
      ensures RowsIn(population, diffs, e)
    {
      RowsOfMatrix(population, diffs, d, e);
    }
  }

  // ---------------------------------------------------------------- one generation

  /**
   * The row indices `chooseRandom` picks for one candidate: a prefix of a
   * shuffle of all row indices (the candidate's own index is not excluded).
   */
  function Chosen(cfg: Config, n: nat, rd: RowDraws): (chosen: seq<int>)
    requires ValidConfig(cfg) && RowDrawsOk(rd, n, Dimension(cfg)) && n > 0
    ensures |chosen| == RandVectorCount(cfg.x, cfg.y)
    ensures forall i :: 0 <= i < |chosen| ==> 0 <= chosen[i] < n
  {
    var rows := Sequence(0, n);
    var shuffled := Shuffle(rows, rd.shuffle);
    assert forall i :: 0 <= i < |shuffled| ==> 0 <= shuffled[i] < n by {
      forall i | 0 <= i < |shuffled| ensures 0 <= shuffled[i] < n {
        assert shuffled[i] in multiset(rows);
      }
    }
    Resized(shuffled, RandVectorCount(cfg.x, cfg.y))
  }

  /**
   * The trimmed trial of candidate `c`: the last chosen index is the base
   * vector, the others feed the alternating difference.
   */
  function TrimmedTrial(cfg: Config, population: seq<seq<real>>, c: int, rd: RowDraws): (t: seq<real>)
    requires ValidConfig(cfg) && IsMatrix(population, Dimension(cfg)) && 0 <= c < |population|
    requires RowDrawsOk(rd, |population|, Dimension(cfg))
    ensures |t| == Dimension(cfg)
  {
    var d := Dimension(cfg);
    var chosen := Chosen(cfg, |population|, rd);
    var last := |chosen| - 1;
    Trim(Trial(population, c, chosen[last], chosen[..last], RunifInt(d, rd.start), rd.cross, cfg.cr, cfg.f, d),
         cfg.upper, cfg.lower)
  }

  /** `TrimmedTrial` unfolded for a given base vector and difference indices. */
  lemma TrimmedTrialOf(cfg: Config, population: seq<seq<real>>, c: int, rd: RowDraws,
                       base: int, diffs: seq<int>)
    requires ValidConfig(cfg) && IsMatrix(population, Dimension(cfg)) && 0 <= c < |population|
    requires RowDrawsOk(rd, |population|, Dimension(cfg))
    requires diffs + [base] == Chosen(cfg, |population|, rd)
    ensures TrialArgsOk(population, c, base, diffs, RunifInt(Dimension(cfg), rd.start), rd.cross, Dimension(cfg))
    ensures TrimmedTrial(cfg, population, c, rd)
            == Trim(Trial(population, c, base, diffs, RunifInt(Dimension(cfg), rd.start), rd.cross, cfg.cr, cfg.f, Dimension(cfg)),
                    cfg.upper, cfg.lower)
  {
    var chosen := Chosen(cfg, |population|, rd);
    assert chosen[|chosen| - 1] == base;
    assert chosen[..|chosen| - 1] == diffs;
    assert forall i :: 0 <= i < |diffs| ==> diffs[i] == chosen[i];
  }

  /**
   * The trial of candidate `c` as the loop body computes it: pick the random
   * rows, take the last as base vector and drop it, fill the trial, trim it.
   */
  method MakeTrial(cfg: Config, indexVector: seq<int>, population: seq<seq<real>>, c: int, rd: RowDraws)
    returns (trial: seq<real>)
    requires ValidConfig(cfg) && IsMatrix(population, Dimension(cfg)) && 0 <= c < |population|
    requires RowDrawsOk(rd, |population|, Dimension(cfg))
    requires indexVector == Sequence(0, |population|)
    ensures trial == TrimmedTrial(cfg, population, c, rd)
  {
    var d := |cfg.upper|;
    var vectors := ChooseRandom(indexVector, RandVectorCount(cfg.x, cfg.y), rd.shuffle);
    var j := RunifInt(d, rd.start);
    var base := vectors[|vectors| - 1];
    vectors := vectors[..|vectors| - 1];
    assert vectors + [base] == Chosen(cfg, |population|, rd);
    TrimmedTrialOf(cfg, population, c, rd, base, vectors);
    var untrimmed := BuildTrial(population, c, base, vectors, j, rd.cross, cfg.cr, cfg.f, d);
    trial := Trim(untrimmed, cfg.upper, cfg.lower);
  }

  /** Strict-improvement selection between candidate `c` and its trial. */
  function Select(cfg: Config, s: State, c: int, trial: seq<real>): (r: (seq<real>, Double))
    requires 0 <= c < |s.population| && |s.scores| == |s.population|
    ensures r == (trial, cfg.objective(trial)) || r == (s.population[c], s.scores[c])
    ensures NotAbove(r.1, s.scores[c])
    ensures r.1 == s.scores[c] ==> r.0 == s.population[c]
  {
    var score := cfg.objective(trial);
    if Less(score, s.scores[c]) then (trial, score) else (s.population[c], s.scores[c])
  }

  /** The next generation: every row selected against its own trial, all from the frozen `s`. */
  function Evolve(cfg: Config, s: State, gd: seq<RowDraws>): (next: State)
    requires ValidConfig(cfg) && ValidState(cfg, s) && DrawsOk(gd, |s.population|, Dimension(cfg))
    ensures ValidState(cfg, next) && |next.population| == |s.population|
    ensures forall c :: 0 <= c < |s.population| ==>
              (next.population[c], next.scores[c]) == Select(cfg, s, c, TrimmedTrial(cfg, s.population, c, gd[c]))
  {
    var n := |s.population|;
    var rows := seq(n, c requires 0 <= c < n => Select(cfg, s, c, TrimmedTrial(cfg, s.population, c, gd[c])));
    State(seq(n, c requires 0 <= c < n => rows[c].0), seq(n, c requires 0 <= c < n => rows[c].1))
  }

  lemma EvolveAt(cfg: Config, s: State, gd: seq<RowDraws>, c: int)
    requires ValidConfig(cfg) && ValidState(cfg, s) && DrawsOk(gd, |s.population|, Dimension(cfg))
    requires 0 <= c < |s.population|
    ensures var row := Select(cfg, s, c, TrimmedTrial(cfg, s.population, c, gd[c]));
            var next := Evolve(cfg, s, gd);
            next.population[c] == row.0 && next.scores[c] == row.1
  {
    var next := Evolve(cfg, s, gd);
    assert (next.population[c], next.scores[c]) == Select(cfg, s, c, TrimmedTrial(cfg, s.population, c, gd[c]));
  }

  /**
   * The body of the sweep for candidate `c`: build and trim its trial, score
   * it, and keep whichever of trial and old row the selection rule prefers.
   */
  method SelectRow(cfg: Config, indexVector: seq<int>, population: seq<seq<real>>,
                   scores: seq<Double>, c: int, rd: RowDraws)
    returns (row: seq<real>, score: Double)
    requires ValidConfig(cfg) && ValidState(cfg, State(population, scores)) && 0 <= c < |population|
    requires RowDrawsOk(rd, |population|, Dimension(cfg))
    requires indexVector == Sequence(0, |population|)
    ensures (row, score) == Select(cfg, State(population, scores), c, TrimmedTrial(cfg, population, c, rd))
  {
    var trial := MakeTrial(cfg, indexVector, population, c, rd);
    var trialScore := cfg.objective(trial);
    if Less(trialScore, scores[c]) {
      row, score := trial, trialScore;
    } else {
      row, score := population[c], scores[c];
    }
  }

  /**
   * One sweep over the population: each candidate's trial reads only the
   * previous matrix, and the new rows and scores go to separate buffers that
   * replace the old ones only after the sweep.
   */
  method NextGeneration(cfg: Config, indexVector: seq<int>, population: seq<seq<real>>,
                        scores: seq<Double>, gd: seq<RowDraws>)
    returns (newPopulation: seq<seq<real>>, newScores: seq<Double>)
    requires ValidConfig(cfg) && ValidState(cfg, State(population, scores))
    requires DrawsOk(gd, |population|, Dimension(cfg))
    requires indexVector == Sequence(0, |population|)
    ensures State(newPopulation, newScores) == Evolve(cfg, State(population, scores), gd)
  {
    var n := |population|;
    ghost var next := Evolve(cfg, State(population, scores), gd);
    var rows := new seq<real>[n];
    var newScoreBoard := new Double[n];
    for c := 0 to n
      invariant rows[..c] == next.population[..c]
      invariant newScoreBoard[..c] == next.scores[..c]
    {
      var row, score := SelectRow(cfg, indexVector, population, scores, c, gd[c]);
      rows[c] := row;
      newScoreBoard[c] := score;
      EvolveAt(cfg, State(population, scores), gd, c);
      assert rows[..c + 1] == rows[..c] + [row];
      assert newScoreBoard[..c + 1] == newScoreBoard[..c] + [score];
      assert next.population[..c + 1] == next.population[..c] + [row];
      assert next.scores[..c + 1] == next.scores[..c] + [score];
    }
    newPopulation := rows[..];
    newScores := newScoreBoard[..];
    assert rows[..] == rows[..n] && newScoreBoard[..] == newScoreBoard[..n];
    assert next.population == next.population[..n] && next.scores == next.scores[..n];
  }

  // ---------------------------------------------------------------- properties of a generation

  predicate GenerationArgsOk(cfg: Config, s: State, gd: seq<RowDraws>)
  {
    ValidConfig(cfg) && ValidState(cfg, s) && DrawsOk(gd, |s.population|, Dimension(cfg))
  }

  /**
   * The trial replaces candidate `c` exactly when its score is strictly less
   * than the old score; otherwise row and score are kept unchanged.
   */
  lemma SelectionIsStrictImprovement(cfg: Config, s: State, gd: seq<RowDraws>, c: int)
    requires GenerationArgsOk(cfg, s, gd) && 0 <= c < |s.population|
    ensures var trial := TrimmedTrial(cfg, s.population, c, gd[c]);
            var next := Evolve(cfg, s, gd);
            && (Less(cfg.objective(trial), s.scores[c]) ==>
                  next.population[c] == trial && next.scores[c] == cfg.objective(trial))
            && (!Less(cfg.objective(trial), s.scores[c]) ==>
                  next.population[c] == s.population[c] && next.scores[c] == s.scores[c])
  {
  }

  /**
   * No score increases: each new score is strictly below the old one or equal
   * to it, and an unchanged score means an unchanged row.
   */
  lemma ScoresNeverIncrease(cfg: Config, s: State, gd: seq<RowDraws>)
    requires GenerationArgsOk(cfg, s, gd)
    ensures var next := Evolve(cfg, s, gd);
            forall c :: 0 <= c < |s.population| ==>
              && NotAbove(next.scores[c], s.scores[c])
              && (next.scores[c] == s.scores[c] ==> next.population[c] == s.population[c])
  {
    var next := Evolve(cfg, s, gd);
    forall c | 0 <= c < |s.population|
      ensures NotAbove(next.scores[c], s.scores[c])
      ensures next.scores[c] == s.scores[c] ==> next.population[c] == s.population[c]
    {
      SelectionIsStrictImprovement(cfg, s, gd, c);
      LessIsStrictOrder(next.scores[c], s.scores[c], s.scores[c]);
    }
  }

  /** With `lower <= upper`, every new row is the old row or lies inside the box. */
  lemma NewRowsAreOldOrInBox(cfg: Config, s: State, gd: seq<RowDraws>)
    requires GenerationArgsOk(cfg, s, gd)
    requires forall i :: 0 <= i < Dimension(cfg) ==> cfg.lower[i] <= cfg.upper[i]
    ensures var next := Evolve(cfg, s, gd);
            forall c :: 0 <= c < |s.population| ==>
              next.population[c] == s.population[c] || Evaluation.InBox(next.population[c], cfg.lower, cfg.upper)
  {
    var next := Evolve(cfg, s, gd);
    forall c | 0 <= c < |s.population|
      ensures next.population[c] == s.population[c] || Evaluation.InBox(next.population[c], cfg.lower, cfg.upper)
    {
      SelectionIsStrictImprovement(cfg, s, gd, c);
    }
  }

  /** A population inside the box stays inside the box. */
  lemma BoxIsInvariant(cfg: Config, s: State, gd: seq<RowDraws>)
    requires GenerationArgsOk(cfg, s, gd)
    requires forall i :: 0 <= i < Dimension(cfg) ==> cfg.lower[i] <= cfg.upper[i]
    requires forall c :: 0 <= c < |s.population| ==> Evaluation.InBox(s.population[c], cfg.lower, cfg.upper)
    ensures var next := Evolve(cfg, s, gd);
            forall c :: 0 <= c < |next.population| ==> Evaluation.InBox(next.population[c], cfg.lower, cfg.upper)
  {
    NewRowsAreOldOrInBox(cfg, s, gd);
  }

  /** A NaN score is never accepted, so NaN-free scores stay NaN-free and their minimum never increases. */
  lemma MinimumNeverIncreases(cfg: Config, s: State, gd: seq<RowDraws>)
    requires GenerationArgsOk(cfg, s, gd)
    requires |s.population| > 0 && NoNaN(s.scores)
    ensures var next := Evolve(cfg, s, gd);
            NoNaN(next.scores) && NotAbove(Minimum(next.scores), Minimum(s.scores))
  {
    ScoresNeverIncrease(cfg, s, gd);
    MinimumOfPointwiseNotAbove(Evolve(cfg, s, gd).scores, s.scores);
  }

  /** If every score is its row's objective value, that stays so in the next generation. */
  lemma ScoresStayObjectiveValues(cfg: Config, s: State, gd: seq<RowDraws>)
    requires GenerationArgsOk(cfg, s, gd)
    requires forall c :: 0 <= c < |s.population| ==> s.scores[c] == cfg.objective(s.population[c])
    ensures var next := Evolve(cfg, s, gd);
            forall c :: 0 <= c < |next.population| ==> next.scores[c] == cfg.objective(next.population[c])
  {
    var next := Evolve(cfg, s, gd);
    forall c | 0 <= c < |next.population|
      ensures next.scores[c] == cfg.objective(next.population[c])
    {
      SelectionIsStrictImprovement(cfg, s, gd, c);
    }
  }

  // ---------------------------------------------------------------- the run

  /** The first answer from `i` on that tells the evolution to stop. */
  function StopFrom(answers: seq<seq<Double>>, i: nat): (g: nat)
    requires exists k :: i <= k < |answers| && Terminate(answers[k])
    ensures i <= g < |answers| && Terminate(answers[g])
    ensures forall k :: i <= k < g ==> !Terminate(answers[k])
    decreases |answers| - i
  {
    if Terminate(answers[i]) then i else StopFrom(answers, i + 1)
  }

  /** The number of generations run: the predicate is asked with 1, 2, ... and answers with `answers[0]`, `answers[1]`, ... */
  function Generations(answers: seq<seq<Double>>): (g: nat)
    requires exists k :: 0 <= k < |answers| && Terminate(answers[k])
  {
    StopFrom(answers, 0)
  }

  /**
   * The history lists: `generations + 1` entries, the first the initial
   * population, and each further entry the evolution of the one before.
   */
  ghost predicate IsRun(cfg: Config, draws: seq<seq<RowDraws>>, populations: seq<seq<seq<real>>>,
                        scoresList: seq<seq<Double>>, generations: nat)
  {
    && ValidConfig(cfg)
    && |populations| == generations + 1 && |scoresList| == generations + 1 && generations <= |draws|
    && (forall g :: 0 <= g <= generations ==>
          ValidState(cfg, State(populations[g], scoresList[g])) && |populations[g]| == |populations[0]|)
    && (forall g :: 0 <= g < generations ==> DrawsOk(draws[g], |populations[0]|, Dimension(cfg)))
    && (forall g :: 0 <= g < generations ==>
          State(populations[g + 1], scoresList[g + 1]) == Evolve(cfg, State(populations[g], scoresList[g]), draws[g]))
  }

  /**
   * `deflex_urgent`: scores the initial population, then runs generations
   * until the termination predicate says stop, appending each generation's
   * population and scores to the history lists.
   */
  method DeflexUrgent(cfg: Config, answers: seq<seq<Double>>, population: seq<seq<real>>,
                      draws: seq<seq<RowDraws>>)
    returns (populations: seq<seq<seq<real>>>, scoresList: seq<seq<Double>>)
    requires ValidConfig(cfg) && IsMatrix(population, Dimension(cfg))
    requires exists k :: 0 <= k < |answers| && Terminate(answers[k])
    requires Generations(answers) <= |draws|
    requires forall g :: 0 <= g < Generations(answers) ==> DrawsOk(draws[g], |population|, Dimension(cfg))
    ensures IsRun(cfg, draws, populations, scoresList, Generations(answers))
    ensures populations[0] == population
    ensures forall c :: 0 <= c < |population| ==> scoresList[0][c] == cfg.objective(population[c])
  {
    var popsize := |population|;
    var indexVector := CreateSequence(0, popsize);
    var scores := EvaluateObjectives(cfg.objective, population);
    populations := [population];
    scoresList := [scores];
    var current := population;
    var generation := 1;
    while !Terminate(answers[generation - 1])
      invariant 1 <= generation <= Generations(answers) + 1
      invariant forall k :: 0 <= k < generation - 1 ==> !Terminate(answers[k])
      invariant IsRun(cfg, draws, populations, scoresList, generation - 1)
      invariant populations[0] == population
      invariant forall c :: 0 <= c < |population| ==> scoresList[0][c] == cfg.objective(population[c])
      invariant current == populations[generation - 1] && scores == scoresList[generation - 1]
      decreases Generations(answers) + 1 - generation
    {
      current, scores := NextGeneration(cfg, indexVector, current, scores, draws[generation - 1]);
      populations := populations + [current];
      scoresList := scoresList + [scores];
      generation := generation + 1;
    }
  }

  // ---------------------------------------------------------------- properties of the history

  /** A candidate's score never increases from any generation to any later one. */
  lemma {:induction false} HistoryScoresNeverIncrease(cfg: Config, draws: seq<seq<RowDraws>>,
                                                      populations: seq<seq<seq<real>>>, scoresList: seq<seq<Double>>,
                                                      generations: nat, g1: nat, g2: nat, c: int)
    requires IsRun(cfg, draws, populations, scoresList, generations)
    requires g1 <= g2 <= generations && 0 <= c < |populations[0]|
    ensures NotAbove(scoresList[g2][c], scoresList[g1][c])
  {
    if g1 < g2 {
      HistoryScoresNeverIncrease(cfg, draws, populations, scoresList, generations, g1, g2 - 1, c);
      ScoresNeverIncrease(cfg, State(populations[g2 - 1], scoresList[g2 - 1]), draws[g2 - 1]);
      LessIsStrictOrder(scoresList[g2][c], scoresList[g2 - 1][c], scoresList[g1][c]);
    }
  }

  /** Starting from NaN-free scores, the best score of each generation is not above the previous one's. */
  lemma {:induction false} HistoryMinimumNeverIncreases(cfg: Config, draws: seq<seq<RowDraws>>,
                                                        populations: seq<seq<seq<real>>>, scoresList: seq<seq<Double>>,
                                                        generations: nat, g: nat)
    requires IsRun(cfg, draws, populations, scoresList, generations)
    requires |populations[0]| > 0 && NoNaN(scoresList[0]) && g < generations
    ensures NoNaN(scoresList[g]) && NoNaN(scoresList[g + 1])
    ensures NotAbove(Minimum(scoresList[g + 1]), Minimum(scoresList[g]))
  {
    if g > 0 {
      HistoryMinimumNeverIncreases(cfg, draws, populations, scoresList, generations, g - 1);
    }
    MinimumNeverIncreases(cfg, State(populations[g], scoresList[g]), draws[g]);
  }

  /** When the first scores are the objective values of the first rows, every recorded score is its row's objective value. */
  lemma {:induction false} HistoryScoresMatchRows(cfg: Config, draws: seq<seq<RowDraws>>,
                                                  populations: seq<seq<seq<real>>>, scoresList: seq<seq<Double>>,
                                                  generations: nat, g: nat)
    requires IsRun(cfg, draws, populations, scoresList, generations)
    requires forall c :: 0 <= c < |populations[0]| ==> scoresList[0][c] == cfg.objective(populations[0][c])
    requires g <= generations
    ensures forall c :: 0 <= c < |populations[g]| ==> scoresList[g][c] == cfg.objective(populations[g][c])
  {
    if g > 0 {
      HistoryScoresMatchRows(cfg, draws, populations, scoresList, generations, g - 1);
      ScoresStayObjectiveValues(cfg, State(populations[g - 1], scoresList[g - 1]), draws[g - 1]);
    }
  }

  /** With `lower <= upper`, a first population inside the box keeps every later population inside it. */
  lemma {:induction false} HistoryStaysInBox(cfg: Config, draws: seq<seq<RowDraws>>,
                                             populations: seq<seq<seq<real>>>, scoresList: seq<seq<Double>>,
                                             generations: nat, g: nat)
    requires IsRun(cfg, draws, populations, scoresList, generations)
    requires forall i :: 0 <= i < Dimension(cfg) ==> cfg.lower[i] <= cfg.upper[i]
    requires forall c :: 0 <= c < |populations[0]| ==> Evaluation.InBox(populations[0][c], cfg.lower, cfg.upper)
    requires g <= generations
    ensures forall c :: 0 <= c < |populations[g]| ==> Evaluation.InBox(populations[g][c], cfg.lower, cfg.upper)
  {
    if g > 0 {
      HistoryStaysInBox(cfg, draws, populations, scoresList, generations, g - 1);
      BoxIsInvariant(cfg, State(populations[g - 1], scoresList[g - 1]), draws[g - 1]);
    }
  }
}
