# gostats rank correlation and percentile engine, in Dafny

This project models three parts of the gostats Go statistics library:

- **The lockstep co-sort** (`sort.go`). `TandemSort` and `TripletSort` sort a
  primary array in place. Every swap also exchanges the same slots of one or
  two companion arrays, so an entry stays beside its companion.
- **Rank assignment and the rank correlations** (`correlation.go`).
  `getRank` co-sorts the caller's array with an index companion. It sweeps the
  sorted values with a `lastDiff` run marker and back-fills a midpoint rank
  into a run of ties when a strictly larger value closes the run. It then
  scatters the ranks back to the original slots. `SpearmanCorrelation` and
  `KendallCorrelation` are built on it, and all three coefficients share a
  length guard.
- **The percentile engine** (`general.go`). `sortFloat64s` makes a NaN-free
  sorted copy. `percentile_` picks an element or blends two neighbours.
  `Percentile`, `Median`, the quartiles, `QuartileRange`, `RegularRange`,
  `MinRegular` and `MaxRegular` are built on those two. `Sum` and `Mean` are the
  NaN-skipping accumulators.

## Modelling choices

- **Values.** A float64 is `Num(r)` (an exact real) or `NaN`. Go's `a < b` is
  `Lt`, which is false when either side is NaN.
- **Ordering.** The co-sort order `Less` places every NaN **before** every
  number. That is what `Less` in `sort.go:43-45` computes.
- **Sorting.** Go's `sort.Sort` and `sort.Float64s` are not part of the
  repository. They are replaced by insertion sorts:
  - the co-sort's insertion sort calls only `Less` and `Swap`;
  - `sortFloat64s` sorts its buffer with an insertion sort on `array<real>`.

  Their results are specified only by sortedness and permutation, which is
  all the standard library promises. The co-sort is not stable, so ranks in
  the original order are stated relationally through the permutation that
  the sort applied (`Rank.RankedBy`).
- **`getRank` and aliasing.** `getRank` sorts the caller's array, and the
  model does the same. `SpearmanCorrelation(x, x)` is allowed: after the
  first call sorts `x`, the second argument is ranked in its sorted state.
  `Correlation.SelfCorrelationExample` shows that the result is then not 1.
  Two slices that share only part of one backing array (for example
  `SpearmanCorrelation(a[0:n], a[1:n+1])`, where ranking x rearranges part of
  y) cannot be expressed with Dafny arrays and are not modelled.
- **Integers.** Counters, `n*(n*n-1)` and `n*(n-1)` are mathematical
  integers, so there is no overflow and no float64 counting.
- **Panics.** Go's index-out-of-range panic in `percentile_` becomes a
  precondition of `PercentileOfSorted`. The callers carry matching
  preconditions:
  - `Percentile` requires the index to be in range whenever it reaches
    `percentile_`;
  - `FirstQuartile` and `ThirdQuartile` require 0 or at least 3 numbers;
  - `QuartileRange`, `RegularRange`, `MinRegular` and `MaxRegular` require at
    least 3 numbers.

  `Median` needs no precondition.

## Model

| member | source | states |
|---|---|---|
| Values.Lt | correlation.go:212 | Go's float64 `<`: numeric order on two numbers, and false whenever either side is NaN |
| Values.Less | sort.go:43-45 | `Doublet.Less` and `Triplet.Less` (sort.go:54-56 is the same test): `Lt`, or the left value is NaN and the right one a number |
| Values.LessIsStrictTotalOrder | sort.go:43-45 | `Less` is irreflexive, asymmetric and transitive, and two values are incomparable exactly when equal |
| Values.NaNsFirst | sort.go:43-45 | in a sequence sorted by `Less`, every NaN precedes every number and the numbers ascend |
| Values.SortedUnique | sort.go:22-27 | two sorted arrangements of one multiset are the same sequence |
| CoSort.SwapDoublet | sort.go:46-49 | `Doublet.Swap` exchanges slots i and j of the data and of the companion, and nothing else |
| CoSort.SwapTriplet | sort.go:57-61 | `Triplet.Swap` exchanges slots i and j of the data and of both companions |
| CoSort.SinkStep | sort.go:43-45 | swapping the sinking slot with a larger predecessor keeps the prefix sorted except at the sinking slot |
| CoSort.SinkDone | sort.go:43-45 | when the sinking element is no smaller than its predecessor, the whole prefix is sorted |
| CoSort.SwapRearrangement | sort.go:46-49 | swapping two entries of a rearrangement of 0..n-1 gives a rearrangement |
| CoSort.RearrangementIsPermutation | sort.go:46-49 | a rearrangement reaches every slot exactly once |
| CoSort.InsertionSortDoublet | sort.go:22-27 | the data ends sorted and is a permutation of its old contents, and one rearrangement `perm` moved both data and companion |
| CoSort.InsertionSortTriplet | sort.go:37 | the `sort.Sort` call over a Triplet: the data ends sorted and permuted, and one rearrangement `perm` moved the data and both companions |
| CoSort.TandemSort | sort.go:22-27 | `TandemSort` leaves the data sorted. One permutation `perm` gives new data[k] == old data[perm[k]] and new companion[k] == old companion[perm[k]]. Companion slots past the data length are untouched |
| CoSort.TripletSort | sort.go:32-38 | as `TandemSort`, with both companions moved by the same permutation |
| CoSort.SortIdempotent | sort.go:22-27 | re-sorting sorted data leaves the data unchanged, and the permutation moves only among equal keys |
| CoSort.TandemSortDescending | sort.go:22-27 | n strictly decreasing values with an identical companion come out ascending in both |
| CoSort.TripletSortDescending | sort.go:32-38 | the same for the triplet sort: both companions come out ascending as well |
| Rank.RunStart | correlation.go:210-220 | the first slot of the maximal run of values equal to slot k |
| Rank.RunEnd | correlation.go:210-220 | the last slot of that run |
| Rank.SweepRank | correlation.go:210-221 | the rank the sweep leaves at a sorted slot lies between its run's start and end |
| Rank.RankedBy | correlation.go:200-226 | the relation every `getRank` lemma is stated in: `s` is the input sorted, `perm` the index companion after the sort (sorted slot k came from slot perm[k]), and original slot perm[k] holds the sweep rank of sorted slot k |
| Rank.GetRank | correlation.go:200-226 | `getRank` sorts the caller's array in place and returns ranks related to the input by `RankedBy`: sorted copy, index permutation, and the sweep rank of each sorted slot scattered to its original slot |
| Rank.SortWithIndex | correlation.go:202-206 | x ends sorted and a permutation of its old contents, and the index companion holds the original slot of each sorted slot |
| Rank.IndexCompanion | correlation.go:202-205 | the index companion holds 0..n-1 in order |
| Rank.SweepRanks | correlation.go:207-221 | the sweep loop with its `lastDiff` marker yields `SweepRank` at every sorted slot |
| Rank.BackFill | correlation.go:215-217 | the back-fill loop writes the midpoint rank into slots lastDiff .. i-1 and leaves every other slot as it was |
| Rank.Scatter | correlation.go:222-224 | the scatter loop writes the rank of sorted slot k to original slot perm[k] |
| Rank.SweepClosesRun | correlation.go:212-219 | a strictly larger value closes the run at `lastDiff`, and every slot of it gets `lastDiff + (i-1-lastDiff)/2` |
| Rank.SweepLeavesTail | correlation.go:210-221 | the run still open when the sweep ends keeps raw positions |
| Rank.SweepExtendsRun | correlation.go:212 | a step that sees no larger value stays within the current run |
| Rank.RunsOrdered | correlation.go:210-220 | the run of a smaller value ends before the run of a larger one starts |
| Rank.RankBounds | correlation.go:210-224 | every rank lies in [0, n-1] |
| Rank.RankMonotone | correlation.go:210-224 | a value `Less` than another gets a strictly smaller rank |
| Rank.DecreasingInputRanks | correlation.go:200-226 | a strictly decreasing input yields strictly decreasing ranks |
| Rank.CountPermuted | correlation.go:206 | counts of smaller and of equal entries are the same in the sorted copy and the original |
| Rank.SortedRunCounts | correlation.go:210-220 | in sorted data, the entries below s[k] are the slots before k's run, and the entries equal to s[k] are k's run |
| Rank.RankWithinTies | correlation.go:210-224 | a rank lies between the number of smaller entries and that plus the ties, and is exactly that number when untied |
| Rank.SameOrderSameRanks | correlation.go:200-226 | two inputs of one length, the first without repeats, whose entries are ordered alike pair by pair under `Less`, get identical ranks |
| Rank.MidRank | correlation.go:212-219 | in NaN-free input, an entry that some larger entry exceeds gets the number of smaller entries plus half the number of its other copies |
| Rank.ClosedRunRank | correlation.go:212-219 | a sorted run followed by a larger value is ranked at its midpoint |
| Rank.TiesShareRank | correlation.go:212-219 | tied entries that some larger entry exceeds share one rank |
| Rank.TrailingTiesKeepRawRanks | correlation.go:210-221 | copies of the largest value never share a midpoint: they get distinct integral ranks |
| Rank.TopRunReachesEnd | correlation.go:210-221 | the run of a value nothing exceeds reaches the last slot |
| Rank.NaNLeavesRawRanks | correlation.go:212 | with any NaN present, every slot keeps the raw sorted position of its value and all ranks are distinct |
| Rank.RawRanksDiffer | correlation.go:212 | with NaN leading the sorted data, distinct slots get distinct ranks |
| RankSum.SumPermuted | correlation.go:222-224 | scattering through a permutation keeps the sum |
| RankSum.MidpointWindow | correlation.go:213-217 | back-filling a run with its midpoint keeps the run's total equal to the sum of its positions |
| RankSum.RunTotal | correlation.go:210-221 | each run of the sweep contributes exactly the sum of its positions |
| RankSum.TotalFrom | correlation.go:210-221 | the sweep from any run boundary onwards sums to the positions it covers |
| RankSum.SweepTotal | correlation.go:210-221 | the sorted-slot ranks sum to 0 + 1 + ... + (n-1) |
| RankSum.RanksSum | correlation.go:200-226 | the ranks returned by `getRank` always sum to n(n-1)/2 |
| Correlation.PearsonCorrelation | correlation.go:51-55 | NaN exactly when the lengths differ or n < 3; otherwise the coefficient, which is not modelled |
| Correlation.SumSqDiff | correlation.go:124-127 | Σ (Rx[i] - Ry[i])², accumulated from the front as the loop does |
| Correlation.SumSqDiffZero | correlation.go:124-127 | the squared rank distance is non-negative, zero when the rankings coincide, and positive otherwise |
| Correlation.BadShape | correlation.go:52-55 | the guard shared by all three coefficients (also correlation.go:116-119 and 165-168): the lengths differ or there are fewer than 3 samples |
| Correlation.SpearmanCoefficient | correlation.go:129 | the returned value 1 - 6·Σd²/(n(n²-1)) of two rankings, with Σd² the loop's accumulated squared rank differences |
| Correlation.SpearmanAtMostOne | correlation.go:129 | Spearman's coefficient is at most 1, and equals 1 exactly when the two rankings are equal |
| Correlation.SpearmanMonotone | correlation.go:115-130 | for NaN-free inputs, x without repeats, and y ordering every pair of slots as x does, both rankings coincide and ρ is exactly 1 |
| Correlation.SpearmanCorrelation | correlation.go:115-130 | NaN exactly on bad shape, with the inputs untouched. Otherwise both inputs are ranked by `getRank`, the second after the first (which matters when x and y are the same array), and the result is 1 - 6·Σd²/(n(n²-1)) |
| Correlation.SquaredRankDistance | correlation.go:124-127 | the accumulator loop computes Σ(Rx[i]-Ry[i])² |
| Correlation.DenominatorPositive | correlation.go:129 | n(n²-1) is positive for n ≥ 2, so the division is defined |
| Correlation.RankBoth | correlation.go:121-122 | x is ranked first, then y in its state after that, which is x's sorted state when they alias |
| Correlation.SelfCorrelationExample | correlation.go:115-130 | correlating [3, 1, 2] with itself ranks the second argument after sorting and yields -0.5, not 1 |
| Correlation.ExampleRanks | correlation.go:200-226 | [3, 1, 2] is ranked [2, 0, 1] |
| Correlation.RankAmongThree | correlation.go:200-226 | for three distinct numbers, a rank is the number of entries below it |
| Correlation.PairClassified | correlation.go:181-192 | each pair falls in exactly one of concordant, discordant or tied, and a pair is tied exactly when it is an x-tie or a y-tie |
| Correlation.RowBalanced | correlation.go:177-193 | over one row of pairs, concordant + discordant + tied equals the number of pairs, and the tie counts bound each other |
| Correlation.GridBalanced | correlation.go:176-194 | the same over the first i rows, against the triangular number of pairs |
| Correlation.Bumps | correlation.go:181-192 | which counter a pair with rank differences xRel and yRel bumps: a tie in x bumps xTies and a tie in y bumps yTies (both, for a double tie), and otherwise equal signs are concordant and opposite signs discordant |
| Correlation.RowCount | correlation.go:177-193 | the number of pairs (i, k), i < k < j, that bump a given counter: the inner loop's count up to j |
| Correlation.GridCount | correlation.go:176-194 | the number of pairs in rows 0 .. i-1 that bump a given counter: the outer loop's count after i rows |
| Correlation.KendallCount | correlation.go:176-194 | the number of pairs i < j of the two rankings that bump a given counter, over all pairs |
| Correlation.KendallCounting | correlation.go:176-194 | concordant + discordant + tied pairs = n(n-1)/2, and each tie count is at most the tied pairs and together they cover them |
| Correlation.KendallTermsBound | correlation.go:195-197 | concordant + discordant is at most each radicand term n(n-1)/2 - ties |
| Correlation.KendallZeroTerm | correlation.go:195-197 | a radicand term n(n-1)/2 - ties is 0 only when the numerator concordant - discordant is 0 as well, so Go's result is then 0/0 = NaN and never an infinity |
| Correlation.KendallSelf | correlation.go:176-194 | ranking against itself gives no discordant pairs, equal tie counts, and concordant = n(n-1)/2 - ties |
| Correlation.AllDiscordant | correlation.go:176-194 | when every pair of the two rankings is discordant, the loop counts no concordant pair and no tie, and all n(n-1)/2 pairs as discordant |
| Correlation.KendallReversed | correlation.go:164-198 | for NaN-free inputs, x without repeats, and y ordering every pair of slots opposite to x, every pair is discordant: concordant = xTies = yTies = 0, discordant = n(n-1)/2, and the numerator is minus each radicand term, which makes τ = -1 |
| Correlation.KendallSymmetric | correlation.go:176-194 | swapping the two rankings swaps concordance roles and x-/y-ties and leaves the rest unchanged |
| Correlation.CountPairs | correlation.go:174-194 | the nested loop's four counters equal the exhaustive pair counts |
| Correlation.KendallCorrelation | correlation.go:164-198 | undefined exactly on bad shape, with the inputs untouched. Otherwise both inputs are ranked, the numerator is concordant - discordant, and the two radicand terms are n(n-1)/2 - xTies and n(n-1)/2 - yTies |
| General.Cleaned | general.go:190-197 | the gathered numbers are never more than the inputs; `CleanedMembers` and `CleanedConcat` state which numbers they are |
| General.CleanedMembers | general.go:193-197 | a number survives exactly when it occurs in the input, and an input without NaNs loses nothing |
| General.InsertAscending | general.go:198 | insertion keeps a sequence ascending |
| General.SortReals | general.go:198 | the reference sort `sort.Float64s` is held to: insertion of each value into the sorted prefix |
| General.SortRealsAscending | general.go:198 | the reference sort is ascending and keeps the multiset |
| General.AscendingUnique | general.go:198 | two ascending arrangements of one multiset are equal |
| General.SortedCopy | general.go:190-200 | what `sortFloat64s` returns: the reference sort of the input's numbers, as many as survive cleaning |
| General.SortedCopyFacts | general.go:190-200 | the sorted copy is ascending and holds exactly the input's numbers, as a multiset |
| General.SortInPlace | general.go:198 | the buffer ends ascending and a permutation of its old contents |
| General.Sink | general.go:198 | one insertion pass extends the ascending prefix by one slot and keeps the multiset |
| General.SortFloat64s | general.go:190-200 | the returned slice is ascending, is the input's numbers as a multiset, and equals the reference sorted copy; the input is only read |
| General.Ceil | general.go:181-182 | `math.Ceil` of the index, taken from its floor |
| General.PercentileIndex | general.go:180 | the 0-based real position (n+1)·p/100 - 1 of percentile p among n sorted values |
| General.CeilFacts | general.go:181-183 | `ceil` is within 1 above the index, equals `floor` exactly for integral indices, and is otherwise `floor + 1` |
| General.IndexInRange | general.go:183-187 | `percentile_` reads `sorted[floor]` and `sorted[ceil]` without a panic exactly when 0 <= index <= n-1 |
| General.BlendBetween | general.go:186-187 | a blend with weights 1 - w and w, 0 < w < 1, of two ends a <= b lies between them |
| General.Interpolate | general.go:180-187 | at an integral index it returns that element; otherwise it lies between the floor and ceil neighbours whenever those are ordered |
| General.InterpolateWeights | general.go:186-187 | for a fractional index both weights lie in (0, 1) and sum to 1, and the result is their blend |
| General.PercentileOfSorted | general.go:179-188 | on ascending data the percentile lies between the first and last elements |
| General.EndPercentilesOutOfRange | general.go:180-187 | p = 0 (index -1) and p = 100 (index n) always fall outside the array |
| General.MedianInRange | general.go:44-46 | the median's index (n-1)/2 is in range exactly for non-empty data |
| General.QuartilesInRange | general.go:134-144 | the 25th and 75th percentile indices are in range exactly when n ≥ 3 |
| General.Percentile | general.go:146-156 | NaN exactly when p < 0, p > 100 or no number remains; otherwise `percentile_` of the sorted copy |
| General.PercentileWithinData | general.go:146-156 | a percentile lies between the least and the greatest number of the input |
| General.SortedCopyEnds | general.go:190-200 | the ends of the sorted copy are input numbers and bound every input number |
| General.PercentileAtIntegralIndex | general.go:183-185 | at an integral index the percentile is that sorted element |
| General.Median | general.go:44-46 | NaN exactly when no number remains |
| General.MiddleOfOdd | general.go:44-46 | with an odd count the median of sorted data is its middle element |
| General.MiddleOfEven | general.go:44-46 | with an even count it is the mean of the two middle elements |
| General.MedianOdd | general.go:44-46 | `Median` of an input with an odd number of numbers is the middle sorted number |
| General.MedianEven | general.go:44-46 | with an even number of numbers it is the mean of the two middle sorted numbers |
| General.FirstQuartile | general.go:134-136 | NaN exactly when no number remains |
| General.ThirdQuartile | general.go:142-144 | NaN exactly when no number remains |
| General.QuartilesOrdered | general.go:174-177 | on ascending data the 25th percentile does not exceed the 75th |
| General.QuartileRange | general.go:174-177 | the pair is (`FirstQuartile`, `ThirdQuartile`) of one sorted copy, in order |
| General.RegularRange | general.go:163-167 | the fences enclose the quartiles and span four interquartile ranges |
| General.MinRegular | general.go:113-117 | the lower fence of `RegularRange`, at or below the first quartile |
| General.MaxRegular | general.go:124-128 | the upper fence of `RegularRange`, at or above the third quartile |
| General.Sum | general.go:68-76 | the loop adds exactly the numbers of the input |
| General.SumSplits | general.go:68-76 | the sum of a concatenation is the sum of the parts, so NaNs anywhere add nothing |
| General.CleanedConcat | general.go:70-74 | dropping NaNs commutes with concatenation |
| General.Average | general.go:61 | `sum / float64(count)` on the numbers that survive: their exact sum divided by their count |
| General.Mean | general.go:52-62 | NaN exactly when no number remains (Go's 0/0); otherwise the average of the numbers |
| General.SumWithin | general.go:68-76 | numbers in [lo, hi] sum to between n·lo and n·hi |
| General.AverageWithin | general.go:61 | the average lies between any bounds of its numbers |
| General.MeanWithinData | general.go:52-62 | the mean lies between the least and the greatest number of the input |

## Left out

- `PearsonCorrelation`: only its length guard is modelled. The sums of
  squares and `math.Sqrt` (correlation.go:57-81) are floating-point numerics.
- `KendallCorrelation`: the final `math.Sqrt` and division (correlation.go:196-197)
  are not modelled. The model returns the numerator and both radicand terms.
  When a term is 0, Go returns NaN (0/0), because the numerator is then 0 too
  (`Correlation.KendallZeroTerm`); the model returns the three parts instead.
- `StandardDeviation` (general.go:27-38) is not modelled, because it uses
  `math.Sqrt` and `math.Abs` over floats.
- `Min` and `Max` (general.go:82-106) are not modelled, because they depend on
  `math.Min`/`math.Max` NaN propagation and ±Inf seeds.
- IEEE-754 rounding, `float64(int)` conversions, float64 counters and int
  overflow are not modelled: arithmetic is on exact reals and unbounded
  integers.
- IEEE-754 infinities are not modelled: `Value` has no +Inf or -Inf. So the
  model cannot express, for example, that Go's `Sum` of +Inf and -Inf is NaN,
  or that a coefficient overflows to ±Inf.
- Go's `sort.Sort` and `sort.Float64s` algorithms are replaced by insertion
  sorts. For equal keys, the co-sort's companion order is stated only up to
  the permutation, as Go promises nothing more.
- `TandemSort` and `TripletSort` require their arrays to be distinct objects.
  A Go caller passing the same slice twice would make every swap a double
  swap, and that case is not modelled. Neither is passing two slices that
  share part of one backing array (`TandemSort(a[0:3], a[1:4])`): Dafny arrays
  are either the same object or disjoint.
- `Percentile`: the `fmt.Errorf` value built for an invalid percentile is
  discarded by the source and is not modelled. A NaN `percentile` argument is
  not modelled: `p` is a real.
- `FirstQuartile`, `ThirdQuartile`, `QuartileRange`, `RegularRange`,
  `MinRegular` and `MaxRegular` take preconditions where Go would panic on an
  out-of-range index.
- The tests of statistics_test.go are not part of this model as code, but
  each check they make is stated for every input size by a member:
  - TestTandemSort (statistics_test.go:38-49): `CoSort.TandemSortDescending`,
    whose input at n = 1000 is the test's; it also states that the companion
    ends sorted, which the test never checks;
  - TestTripletSort (statistics_test.go:22-36): `CoSort.TripletSortDescending`,
    for the data and both companions (the test checks `slice1` twice and never
    `slice2`);
  - TestGetRank's first check (statistics_test.go:51-61):
    `Rank.DecreasingInputRanks`;
  - TestGetRank's 799.5 check (statistics_test.go:62-68): `Rank.MidRank`
    (799 entries lie below 800 and 800 has two copies, so 799 + 1/2).

  `Correlation.ExampleRanks` and `Correlation.SelfCorrelationExample` are
  further small concrete examples.
