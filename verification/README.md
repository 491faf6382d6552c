# deflex: the DE/x/y/z routine, modelled in Dafny

This project models `deflex_urgent`, the plain differential-evolution routine of the deflex R package. The routine is written in C++ on top of Rcpp. The model covers the helpers that the routine relies on as well.

How a run works:

- The routine scores an initial population.
- It asks a termination predicate with the generation numbers 1, 2, 3, …, and runs one generation each time the predicate says "go on".
- In a generation, each candidate `c` gets a trial vector:
  - `randVectorCount = 2*y + (x == 0)` row indices are picked by shuffling all row indices and keeping a prefix;
  - the last picked index is the base vector, and the others feed an alternating difference `p[i0] - p[i1] + p[i2] - …`;
  - a cyclic walk from a random start index `j` fills every element: the mutant `base[j] + F * diff` when that step's uniform draw is below `CR`, otherwise a copy of `population(c, j)`;
  - the trial is clamped to `[lower, upper]`, upper limit first.
- The trial replaces the candidate only when its score is strictly lower.
- Every generation's population and scores are appended to two history lists.

The model also covers the bounds-guarded evaluation of `src/evaluate.h`:

- an out-of-box point scores +infinity without calling the objective;
- an in-box point gets the objective's value, NaN included.

The separate `evaluate` of the same file reports a NaN value as an error. No modelled code calls it.

Modules, one per concern:

- `Numbers` (numbers.dfy): the doubles that scores can be, IEEE `<` between them, and the minimum of a score vector.
- `Utils` (utils.dfy), the helpers of `src/utils.cpp` and `src/utils.h`:
  - `createSequence`;
  - `chooseRandom`, with the shuffle pass of `std::random_shuffle`;
  - `_terminate`;
  - `vectorsDifference`;
  - `_runifIntWrapper`;
  - `trimVector`;
  - the plain `evaluateObjectives`.
- `Evaluation` (evaluation.dfy): the guarded `evaluateObjective`/`evaluateObjectives` and the NaN rule of `evaluate` (`src/evaluate.h`).
- `Deflex` (deflex.dfy), the routine itself:
  - the trial built in place by a cyclic walk (`BuildTrial`);
  - one generation swept over separate buffers (`NextGeneration`);
  - the driver that grows the history lists (`DeflexUrgent`);
  - the specification functions `Trial`, `TrimmedTrial` and `Evolve`, with the properties proved about them.
- `Wrappers` (wrappers.dfy): `Option` and `Result`.

The outside world becomes inputs:

- The objective callback is a function parameter.
- The termination callback is the sequence of its answers: `answers[g - 1]` is what it returns for generation `g`.
- Every call of R's `unif_rand` becomes a given draw. The `shuffle` and `start` draws are required to lie in `[0, 1)`. The `cross` draws are only compared with `CR`, so they may be any real, which makes the model more general. One candidate in one generation uses a `RowDraws` value:
  - `shuffle`: the shuffle draws, in the order `std::random_shuffle` consumes them;
  - `start`: the start-index draw;
  - `cross`: one crossover draw per step of the walk.

Behaviour of the code worth noting, which the model keeps as written:

- `_terminate` stops the run when the predicate returns an empty vector. It does not continue.
- `chooseRandom` draws from all rows, so the current candidate's own row may be picked.
- `evaluate` rejects only NaN, not infinite values.
- With `x != 0` the difference list has `2*y - 1` indices, an odd count, although `vectorsDifference` documents an even one (src/utils.h:43); the last, unpaired row is added with a `+` sign.

## Model

| member | source | states |
|---|---|---|
| Utils.CreateSequence | src/utils.cpp:5-16 | for `from <= to`, the result has length `to - from` and element `i` is `from + i` |
| Utils.RunifInt | src/utils.h:58-63 | for `n > 0` and a draw `0 <= u < 1`, `floor(u*n)` lies in `[0, n)`; for `n == 0` it is 0 |
| Utils.ShuffleFrom | src/utils.cpp:24 | the `std::random_shuffle` pass (swap position `i` with `_runifIntWrapper(i+1)` for `i = 1 … n-1`) keeps the length and is a permutation (same multiset) |
| Utils.ShuffleKeepsDistinct | src/utils.cpp:21-24 | shuffling distinct elements gives distinct elements |
| Utils.Resized | src/utils.cpp:27 | `vector::resize(count)` gives `count` elements: the kept prefix, then zeros |
| Utils.Shuffle | src/utils.cpp:24 | `std::random_shuffle` over the whole vector keeps the length and is a permutation of the input |
| Utils.ShuffleInPlace | src/utils.cpp:24 | the in-place shuffle of an array leaves exactly `Shuffle(old contents, draws)` in it |
| Utils.ChooseRandom | src/utils.cpp:19-31 | the result is the first `count` elements of a shuffle of a copy of the input, `count` long; for `count <= |input|` each chosen element comes from the input, and distinct inputs give distinct chosen elements |
| Utils.Terminate | src/utils.cpp:34-40 | stop iff the predicate's answer is empty or its first element is nonzero |
| Utils.AlternatingSum | src/utils.cpp:43-69 | the reference sum for `vectorsDifference`: 0 for no indices, the single row's entry for one index |
| Utils.AlternatingSumSnoc | src/utils.cpp:51-65 | one more index adds its row's entry, with `+` at an even position and `-` at an odd one, as the flipping flag does |
| Utils.AlternatingSumOfEqualEntries | src/utils.cpp:43-69 | rows that agree at the element cancel in pairs: an even count gives 0 and an odd count gives the common entry |
| Utils.AlternatingSumAppendPair | src/utils.cpp:51-65 | one more pair `[a, b]` after an even-length index list adds `p[a][e] - p[b][e]` to the alternating sum |
| Utils.AlternatingSumOfPair | src/utils.cpp:43-69 | for indices `[a, b]` the difference is `p[a][e] - p[b][e]` |
| Utils.VectorsDifference | src/utils.cpp:43-69 | the flag-flipping loop returns the sum with `+` at even and `-` at odd positions of `indices`; 0 for no indices |
| Utils.TrimElement | src/utils.h:110-113 | one element: in `[lower, upper]` when `lower <= upper`; unchanged inside; too large gives `upper`; below `lower`, or `upper < lower`, gives `lower` |
| Utils.Trim | src/utils.h:108-117 | keeps the length; with `lower[i] <= upper[i]` each element ends in `[lower[i], upper[i]]`; elements inside are unchanged; too large gives `upper[i]`, too small gives `lower[i]`; with `upper[i] < lower[i]` the result is `lower[i]` (upper trim first) |
| Utils.TrimIdempotent | src/utils.h:108-117 | trimming a trimmed vector changes nothing |
| Utils.EvaluateObjectives | src/utils.h:86-97 | one score per row, and score `i` is the objective applied to row `i` |
| Numbers.Less | src/deflex.cpp:105 | IEEE `<` on doubles: never true with NaN or between equal values; the real order on finite values; nothing is below -infinity and +infinity is below nothing; -infinity is below, and +infinity above, every other non-NaN value |
| Numbers.LessIsStrictOrder | src/deflex.cpp:105 | IEEE `<` on scores is irreflexive, asymmetric and transitive, and "not above" is transitive |
| Numbers.LessIsTotalWithoutNaN | src/deflex.cpp:105 | without NaN, of two scores one is below the other or they are equal |
| Numbers.Minimum | src/deflex.cpp:105-125 | specification helper for "the best score never increases" (the routine computes no minimum): the minimum is one of the scores and, without NaN, is not above any of them |
| Numbers.MinimumOfPointwiseNotAbove | src/deflex.cpp:105-125 | when no new score is above its old one, the new scores are NaN-free and their minimum is not above the old minimum |
| Evaluation.Evaluate | src/evaluate.h:14-28 | an error exactly when the objective value is NaN; otherwise exactly that value |
| Evaluation.FirstOutOfBox | src/evaluate.h:44-52 | the scan finds nothing iff every element lies within its bounds; otherwise it finds the first element below `lower[i]` or above `upper[i]` |
| Evaluation.EvaluateObjective | src/evaluate.h:38-56 | any out-of-bounds element gives +infinity; an in-box candidate (bounds included) gets exactly the objective's value, and the objective is only called on in-box points |
| Evaluation.EvaluateObjectives | src/evaluate.h:66-80 | one score per row, score `i` is the guarded evaluation of row `i`, so it is +infinity or row `i` is in the box |
| Deflex.Offset | src/deflex.cpp:74-96 | the step of the walk that reaches an index lies in `[0, d)` |
| Deflex.RandVectorCount | src/deflex.cpp:44 | `2*y + (x == 0)` vectors: the difference list (all but the base vector) has an even length exactly when `x == 0` |
| Deflex.CyclicWalkVisitsEachIndexOnce | src/deflex.cpp:74-96 | the walk `j := (j + 1) % d` from a start in `[0, d)` visits every index of `[0, d)` at exactly one of its `d` steps |
| Deflex.Trial | src/deflex.cpp:84-96 | the untrimmed trial has `d` elements; element `e`, reached at step `Offset(e)`, is the mutant `base[e] + F * difference` when that step's draw is below `CR`, else row `c`'s element |
| Deflex.BuildTrial | src/deflex.cpp:76-96 | the in-place fill of the trial vector gives exactly `Trial`: every element is set, from the draw of the step that reaches it |
| Deflex.TrialStep | src/deflex.cpp:84-95 | step `k` sets element `(start + k) % d` to the mutant `base + F * difference` when draw `k` is below `CR`, else to row `c`'s element |
| Deflex.NoCrossoverKeepsRow | src/deflex.cpp:84-92 | the `k == dimension` guard never fires, so with every draw at or above `CR` the untrimmed trial is row `c` itself |
| Deflex.FullCrossoverMutatesAll | src/deflex.cpp:84-89 | with every draw below `CR` every element is the mutant |
| Deflex.Chosen | src/deflex.cpp:71 | `chooseRandom` over the row indices of line 47 gives `randVectorCount = 2*y + (x == 0)` (line 44) indices, each a row of the population |
| Deflex.TrimmedTrial | src/deflex.cpp:70-99 | the trimmed trial has one element per dimension |
| Deflex.TrimmedTrialOf | src/deflex.cpp:71-99 | the last chosen index is the base vector and the rest go to the difference; the trimmed trial is the trim of `Trial` with them |
| Deflex.MakeTrial | src/deflex.cpp:70-99 | choosing rows, drawing the start, popping the base vector, filling and trimming give exactly `TrimmedTrial` |
| Deflex.SelectRow | src/deflex.cpp:69-118 | one candidate's row and score after selection against its trimmed trial |
| Deflex.Select | src/deflex.cpp:105-118 | the result is the trial with its score or the old row with its old score; its score is not above the old score, and an unchanged score comes with the unchanged row |
| Deflex.Evolve | src/deflex.cpp:62-125 | the next generation has the same shape, and each row and score is the selection of that candidate against a trial built from the frozen old population |
| Deflex.EvolveAt | src/deflex.cpp:105-118 | row `c` of the next generation is the selection for candidate `c` |
| Deflex.NextGeneration | src/deflex.cpp:62-125 | the sweep over separate buffers yields exactly `Evolve` of the old population and scores |
| Deflex.SelectionIsStrictImprovement | src/deflex.cpp:105-118 | the trial and its score replace candidate `c` iff the score is strictly less than the old one; otherwise row and score are kept |
| Deflex.ScoresNeverIncrease | src/deflex.cpp:105-118 | no candidate's score goes up in a generation, and an unchanged score means an unchanged row |
| Deflex.NewRowsAreOldOrInBox | src/deflex.cpp:99-118 | with `lower <= upper` each new row is the old row or lies in the box |
| Deflex.BoxIsInvariant | src/deflex.cpp:99-125 | with `lower <= upper`, a population inside the box stays inside it |
| Deflex.MinimumNeverIncreases | src/deflex.cpp:105-125 | NaN-free scores stay NaN-free, and the best score of a generation is not above the previous one's |
| Deflex.ScoresStayObjectiveValues | src/deflex.cpp:102-118 | when every score is its row's objective value, that stays so after a generation |
| Deflex.StopFrom | src/deflex.cpp:58-61 | the number of generations run is the first answer that says stop, and every earlier answer says go on |
| Deflex.DeflexUrgent | src/deflex.cpp:22-135 | the history starts with the initial population and its objective scores, holds one entry more than the generations run, and each entry is `Evolve` of the one before |
| Deflex.HistoryScoresNeverIncrease | src/deflex.cpp:61-130 | a candidate's score at any generation is not above its score at any earlier generation |
| Deflex.HistoryMinimumNeverIncreases | src/deflex.cpp:61-130 | from NaN-free initial scores, the best score of each recorded generation is not above the one before |
| Deflex.HistoryScoresMatchRows | src/deflex.cpp:50-130 | every recorded score is its row's objective value |
| Deflex.HistoryStaysInBox | src/deflex.cpp:61-130 | with `lower <= upper` and an in-box first population, every recorded population lies in the box |

## Left out

- R and Rcpp plumbing is not modelled: `Rcpp::export`, the marshaling of `NumericMatrix`, `NumericVector` and `List`, and the `PROTECT`/`Rf_lang2`/`Rf_eval` calls in `evaluate`. Matrices are `seq<seq<real>>`, and the error that `Rf_error` raises is a `Failure` value.
- The objective and termination callbacks are R code. The objective is a function parameter, and the termination predicate is the sequence of its answers.
- R's random number generator is not modelled; each `unif_rand` result is an input in `[0, 1)`.
- `std::random_shuffle` is modelled with libstdc++'s swap order: position `i` is swapped with `rand(i + 1)` for `i = 1 … n-1`. Other standard libraries may order the swaps differently.
- Trial arithmetic (`base + F * diff`), trimming and the bounds comparisons use exact `real`s. IEEE rounding and NaN or infinity inside a candidate are not modelled. Scores are doubles with +infinity, -infinity and NaN, compared with IEEE `<`.
- `ValidConfig`: `2*y + (x == 0) >= 1` is required, because with no chosen vector `vectors.back()` on an empty vector is undefined behaviour.
- `ValidConfig`: `lower` and `upper` must have the same length.
- Every row must have `upper.size()` elements: `NumericMatrix` is rectangular and the routine indexes it with `dimension`.
- Deflex.DeflexUrgent: requires that some answer of the termination predicate says stop. A run that never stops is not modelled.
- Utils.CreateSequence: requires `from <= to`; a negative length makes `std::vector` throw.
- Utils.ChooseRandom: requires `count >= 0`; the source only calls it with `2*y + (x == 0)`.
- `z` is accepted and never used, as in the source.
- The adaptive strategy (running CR/F means, Cauchy and normal draws, jitter, bounce-back, precision rounding) is not part of this model: none of its code is in the modelled files.
- Utils.Terminate takes the predicate's answer as a vector of doubles. A non-numeric answer that R would fail to convert is not modelled.
- The objective is modelled as a pure, total function from a candidate to a double. In the source it is an R callback. `Rcpp::as<double>` throws when the callback returns anything other than one number (src/utils.h:75, src/evaluate.h:55). An R error inside the callback aborts the run. A noisy callback can give different values for the same point.
- Deflex.ScoresStayObjectiveValues, Deflex.HistoryScoresMatchRows: "every recorded score is its row's objective value" rests on that purity assumption. It does not hold for a noisy objective.
- Integers are unbounded. The 32-bit `int` overflow of `y * 2` (src/deflex.cpp:44) and of `++generation` (src/deflex.cpp:61) is not modelled.
