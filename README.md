# Missing-value analyses of the CIBMTR outcome dataset, in Dafny

This project models the exploratory-analysis core of a survival-outcome
prediction pipeline. A dataset is a pandas-like frame: named columns of equal
length. Each cell holds a number or a label, or is missing (NaN). The model
covers three parts.

- **`analyze_group_differences`** (src/EDA/missing_values.py). For every
  feature it takes the share of missing cells in each group of a grouping
  column. It runs a chi-square test on the group × is-missing contingency
  table and records the largest difference between two groups. It scores
  that difference as `max_diff / (p_value + 1e-10)`. The results table is
  rounded to three decimals, half to even, and sorted two ways: by p-value,
  and by descending score.
- **`analyze_missing_patterns`** (src/EDA/missing_values.py and the
  identical src/eda/missing_values.py). It builds the 0/1 missing-indicator
  matrix. It runs a chi-square test for every pair of columns whose names are
  in order (`col1 < col2`), in nested-loop order. Then, for every column with
  a missing value, it compares the outcome (`efs`, `efs_time`) between the
  rows where that column is missing and the rows where it is present.
- **The counting parts of src/eda/analysis.py**, namely:
  - the row and column counts;
  - the missing-value summary (count and percentage, rounded to two
    decimals, of every column that has a missing value);
  - the cardinality of the label columns;
  - the quality metrics (missing percentage per column, duplicated rows,
    unique counts per column);
  - the event and censoring rates.

Some of the source code works step by step: the feature loop that fills a
results dict, the nested pair loop, and the filtering loop over the columns.
These become methods with loop invariants, in module `Loops`. Each is proved
equal to a specification function (`Steps`, `PairSteps`, `KeptSteps`). The
analyses state their results through those functions and the lemmas about
them. The rest of the model is functions, lemmas and datatypes.

The chi-square test (`scipy.stats.chi2_contingency`) and the rank test
(`mannwhitneyu`) are parameters of the analyses. A chi-square outcome is a
statistic and a p-value in [0, 1]. The scipy error on a table with no
observations is modelled (`Contingency.ChiSquare`). Values are exact reals,
not floating point.

Modules:

| module | contents |
|---|---|
| `Wrappers` | `Option`, `Result` |
| `Collections` | distinctness, order-keeping dedup (for `unique`), present values (for `dropna`), occurrence and missing counts, filtering with the positions it keeps, the first error of a run of steps |
| `Numbers` | sums, the pandas means, max and min, round-half-to-even to a number of decimals |
| `StringOrder` | Python's `<` on strings |
| `Table` | frames, columns, dtypes, `df[name]`, `isnull`, the exceptions |
| `Contingency` | `pd.crosstab` and the chi-square outcome |
| `Sorting` | `sort_values`, as a sorted permutation |
| `PairOrder` | the pairs the nested loop visits and how many there are |
| `Loops` | the three loops, as methods proved against their specification functions |
| `GroupDifferences` | `analyze_group_differences` |
| `MissingPatterns` | `analyze_missing_patterns` |
| `Overview` | the parts of `initial_data_overview` and `comprehensive_eda` that are counts |

## Model

| member | source | states |
|---|---|---|
| `Table.Find` | src/EDA/missing_values.py:26 | `df[name]` yields the column with that name exactly when the frame has one; otherwise it raises `KeyError(name)` |
| `Table.Indicator` | src/EDA/missing_values.py:26 | `isnull()` is true exactly at the missing cells |
| `Table.NumericCells` | src/eda/analysis.py:82 | arithmetic on a column of numeric or boolean dtype yields its cells' numbers, missing exactly where the cell is; on any other dtype it raises a type error naming the column |
| `Table.ColumnsWithMissing` | src/EDA/missing_values.py:148-150 | the columns kept by `missing_mask.any()` are exactly those with a missing cell, taken at increasing positions |
| `Collections.Dedup` | src/EDA/missing_values.py:26 | the distinct values; nothing is lost and nothing is added |
| `Collections.DedupInOrder` | src/EDA/missing_values.py:26 | `unique()` keeps each value once, at its first appearance, in order of first appearance |
| `Collections.DedupCardinality` | src/eda/analysis.py:77 | the deduplicated sequence is as long as the set of its values |
| `Collections.Present` | src/EDA/missing_values.py:153 | `dropna()` keeps exactly the present values |
| `Collections.PresentInOrder` | src/EDA/missing_values.py:153 | `dropna()` keeps every present cell once, in row order, and nothing else |
| `Collections.MissingCountSplit` | src/eda/analysis.py:37 | `isnull().sum()` plus the number of present values is the length; it equals the multiplicity of NaN |
| `Collections.FilterPicks` | src/eda/analysis.py:51 | a filter keeps elements at strictly increasing positions, each equal to the element there |
| `Collections.FilterIndicesCover` | src/eda/analysis.py:51 | every position whose element passes the filter is kept |
| `Collections.AllOk` | src/EDA/missing_values.py:129-141 | a run of steps fails with the first error raised; otherwise it collects every step's value in order |
| `Collections.FirstErrorAt` | src/EDA/missing_values.py:24-41 | the first failing step decides the error |
| `Numbers.Mean` | src/EDA/missing_values.py:166 | the pandas mean is NaN exactly on an empty input |
| `Numbers.MeanBounds` | src/EDA/missing_values.py:166 | a mean of values in [lo, hi] lies in [lo, hi] |
| `Numbers.WeightedMean` | src/EDA/missing_values.py:166-167 | the overall mean is the size-weighted combination of two group means |
| `Numbers.Max` | src/EDA/missing_values.py:33 | `max()` is an element and bounds every element |
| `Numbers.Min` | src/EDA/missing_values.py:33 | `min()` is an element and is bounded by every element |
| `Numbers.Spread` | src/EDA/missing_values.py:33 | `max - min` bounds every difference of two elements, is attained, and lies in [0, hi - lo] for elements in [lo, hi] |
| `Numbers.RoundHalfEven` | src/EDA/missing_values.py:43 | the rounded integer is within one half of the value |
| `Numbers.RoundHalfEvenTies` | src/EDA/missing_values.py:43 | a value halfway between two integers rounds to the even one |
| `Numbers.RoundMonotone` | src/EDA/missing_values.py:43-49 | rounding never reorders two values |
| `Numbers.RoundWithinIntBounds` | src/EDA/missing_values.py:43 | rounding keeps a value within integer bounds it already lies in |
| `Numbers.RoundOfInt` | src/EDA/missing_values.py:43 | rounding leaves an integer unchanged |
| `Numbers.RoundError` | src/eda/analysis.py:38 | rounding to `d` decimals moves a value by at most half a unit in the last place |
| `StringOrder.LexLessIrreflexive` | src/EDA/missing_values.py:132 | no name sorts before itself, so a column is never paired with itself |
| `StringOrder.LexLessAsymmetric` | src/EDA/missing_values.py:132 | at most one of `a < b` and `b < a` holds, so each unordered pair is tested at most once |
| `StringOrder.LexLessTransitive` | src/EDA/missing_values.py:132 | the string order is transitive |
| `StringOrder.LexLessTotal` | src/EDA/missing_values.py:132 | of two different names, one sorts first, so each unordered pair is tested at least once |
| `Contingency.CrossTab` | src/EDA/missing_values.py:28 | `pd.crosstab`: distinct row and column labels, and every cell counts the rows with both labels |
| `Contingency.CrossTabRowSum` | src/EDA/missing_values.py:28 | a row of the table adds up to the occurrences of its label among rows where both values are present |
| `Contingency.CrossTabTotal` | src/EDA/missing_values.py:28 | the table holds exactly the rows where both values are present |
| `Contingency.CrossTabEmpty` | src/EDA/missing_values.py:28-29 | the table has no rows or columns exactly when no row has both values |
| `Contingency.CrossTabLabels` | src/EDA/missing_values.py:28 | every label of the table occurs in its column |
| `Contingency.CrossTabObserved` | src/EDA/missing_values.py:28-29 | no row and no column of a crosstab is all zero: every label is observed with some label of the other column |
| `Contingency.ChiSquare` | src/EDA/missing_values.py:29 | the test raises on a table with no rows or columns, and otherwise returns the outcome of the test on the counts |
| `Sorting.InsertBy` | src/EDA/missing_values.py:46 | inserting into a sorted sequence gives a sorted sequence with one more occurrence of the element |
| `Sorting.SortBy` | src/EDA/missing_values.py:46-51 | `sort_values`: the result is sorted by the key and is a permutation of the input |
| `PairOrder.Rest` | src/EDA/missing_values.py:130-132 | the pairs still to visit are valid column positions |
| `PairOrder.PairsSpec` | src/EDA/missing_values.py:130-132 | the visited pairs are exactly the position pairs whose names are in order, each naming two different columns, in nested-loop order |
| `PairOrder.RestSound` | src/EDA/missing_values.py:130-132 | every pair still to visit has its names in order and comes at or after the loop position |
| `PairOrder.RestComplete` | src/EDA/missing_values.py:130-132 | every pair in order at or after the loop position is still to visit |
| `PairOrder.RestOrdered` | src/EDA/missing_values.py:130-132 | the pairs are visited in nested-loop order |
| `PairOrder.RestLength` | src/EDA/missing_values.py:130-132 | the number of pairs left is the count of ordered name pairs ahead of the loop position |
| `PairOrder.PairCountDistinct` | src/EDA/missing_values.py:130-132 | among C distinct names, C·(C−1)/2 ordered pairs exist |
| `PairOrder.PairsCount` | src/EDA/missing_values.py:130-132 | with distinct names the nested loop tests C·(C−1)/2 pairs |
| `Loops.PairSteps` | src/EDA/missing_values.py:129-141 | one step outcome per visited pair, in loop order |
| `Loops.StepsFromInner` | src/EDA/missing_values.py:131-132 | an inner iteration skips a pair out of order and otherwise runs the step on it first |
| `Loops.InnerPairs` | src/EDA/missing_values.py:131-141 | the inner loop for one outer column either raises the error the run would raise, or appends that column's rows and leaves the rest of the run unchanged |
| `Loops.ForEachPair` | src/EDA/missing_values.py:129-141 | the nested loop returns the first error raised, or one row per visited pair in loop order |
| `Loops.KeptSteps` | src/EDA/missing_values.py:147-150 | one step outcome per kept column, in order |
| `Loops.KeptStep` | src/EDA/missing_values.py:148-168 | one iteration of the filtering loop skips, fails or appends, and keeps the loop invariant |
| `Loops.ForEachKept` | src/EDA/missing_values.py:147-168 | the filtering loop returns the first error raised, or one row per kept column in order |
| `Loops.Steps` | src/EDA/missing_values.py:24-41 | one iteration outcome per feature, in order |
| `Loops.CollectStep` | src/EDA/missing_values.py:35-41 | storing a feature's row keeps the dict invariant: each key maps to the value of its iteration, with keys in order of first insertion |
| `Loops.CollectFailed` | src/EDA/missing_values.py:24-41 | the loop stops at the first failing feature with that feature's error |
| `Loops.CollectDone` | src/EDA/missing_values.py:24-41 | a loop run to the end saw no failure and leaves a complete results dict |
| `Loops.CollectResults` | src/EDA/missing_values.py:22-41 | the results loop fails with the first iteration's error, or returns a dict holding every feature's row, with keys in order of first insertion |
| `GroupDifferences.Groups` | src/EDA/missing_values.py:26 | the group values, each once |
| `GroupDifferences.GroupsMembership` | src/EDA/missing_values.py:26 | a value is a group exactly when it occurs in the group column (rows with a missing group are dropped) |
| `GroupDifferences.GroupIndicatorsCount` | src/EDA/missing_values.py:26 | a group's indicators number its rows and add up to its missing cells; missing and present cells make up the group |
| `GroupDifferences.GroupPercentageShare` | src/EDA/missing_values.py:26 | a group's percentage is 100 × its missing cells ÷ its rows, in [0, 100], and every group has a row |
| `GroupDifferences.GroupContingency` | src/EDA/missing_values.py:28 | the table's rows are the groups; each cell counts the group's rows that are missing (or present); a row adds up to the group's size |
| `GroupDifferences.GroupTableEmpty` | src/EDA/missing_values.py:28-29 | the table is empty, and the test raises, exactly when the group column is entirely missing |
| `GroupDifferences.ScoreSign` | src/EDA/missing_values.py:40 | the score is non-negative for a non-negative difference, and zero exactly when the difference is |
| `GroupDifferences.ScoreAntitone` | src/EDA/missing_values.py:40 | for a fixed difference, a larger p-value never gives a larger score |
| `GroupDifferences.Percentages` | src/EDA/missing_values.py:26 | one percentage per group, in group order |
| `GroupDifferences.PercentageMap` | src/EDA/missing_values.py:36 | `to_dict()` maps exactly the groups to their percentages |
| `GroupDifferences.PercentageMapKeys` | src/EDA/missing_values.py:26-36 | the dict has one entry per value present in the group column |
| `GroupDifferences.PercentageMapValue` | src/EDA/missing_values.py:26-36 | each entry is its group's missing share, in [0, 100] |
| `GroupDifferences.PercentagesBounded` | src/EDA/missing_values.py:26 | every percentage lies in [0, 100] |
| `GroupDifferences.FeatureRowSpread` | src/EDA/missing_values.py:33-39 | `max_group_difference` bounds the difference of every two groups' percentages, is attained by two groups, and lies in [0, 100] |
| `GroupDifferences.FeatureRowScore` | src/EDA/missing_values.py:35-41 | the row carries the test's p-value and statistic, and its score is the guarded ratio, never negative |
| `GroupDifferences.AnalyzeFeatureOutcome` | src/EDA/missing_values.py:24-41 | an iteration raises `KeyError` for an absent feature, then for an absent group column, then the scipy error when no row has a group; otherwise it yields the feature's row |
| `GroupDifferences.Outcomes` | src/EDA/missing_values.py:24-41 | one iteration outcome per feature, in order |
| `GroupDifferences.ResultTable` | src/EDA/missing_values.py:43 | the results frame holds one row per distinct feature |
| `GroupDifferences.TableOf` | src/EDA/missing_values.py:43 | `from_dict(...).round(3)` holds one rounded row per key, in insertion order |
| `GroupDifferences.TableOfResults` | src/EDA/missing_values.py:22-43 | the frame built from the filled dict is the results table, and it is empty exactly when there are no features |
| `GroupDifferences.RoundResultBounds` | src/EDA/missing_values.py:43 | rounding keeps the groups, the percentage and spread bounds and the score's sign, and moves the p-value by at most 0.0005 |
| `GroupDifferences.ResultTableRow` | src/EDA/missing_values.py:24-43 | row k is the rounded row of the k-th distinct feature: one percentage per group value, each in [0, 100], a spread in [0, 100] and a non-negative score |
| `GroupDifferences.AnalysisFacts` | src/EDA/missing_values.py:12-51 | the analysis fails with the first iteration's error; with no features, it raises `KeyError('p_value')` when sorting; otherwise both outputs are permutations of the results table, sorted by ascending p-value and by descending score |
| `GroupDifferences.AnalyzeGroupDifferences` | src/EDA/missing_values.py:12-51 | the loop-and-sort procedure computes exactly the analysis |
| `MissingPatterns.IndicatorSum` | src/EDA/missing_values.py:122 | an indicator column adds up to the column's missing count |
| `MissingPatterns.IndicatorColumn` | src/EDA/missing_values.py:122 | `isnull().astype(int)` is 1 exactly at the missing cells and 0 elsewhere |
| `MissingPatterns.IndicatorMatrix` | src/eda/missing_values.py:17 | one 0/1 column per frame column, the indicator column of that column, of the frame's length and adding up to its missing count |
| `MissingPatterns.PairTableTotal` | src/EDA/missing_values.py:133-134 | a pair's table holds every row, so it is empty only for a frame without rows |
| `MissingPatterns.PairTableLabels` | src/EDA/missing_values.py:133-134 | a pair's table has labels 0 and 1 only |
| `MissingPatterns.PairStepFacts` | src/EDA/missing_values.py:133-141 | a pair's test raises exactly on a frame without rows; otherwise its row names the two columns and carries the test's statistic and p-value |
| `MissingPatterns.PairwiseChiSquare` | src/EDA/missing_values.py:129-141 | the nested loop computes exactly the pairwise rows |
| `MissingPatterns.SomePair` | src/EDA/missing_values.py:130-132 | with distinct names, some pair is tested exactly when there are two columns |
| `MissingPatterns.PairRowsError` | src/eda/missing_values.py:24-36 | the pairwise pass raises, with scipy's empty-table error, exactly when the frame has no rows and at least two columns |
| `MissingPatterns.PairRowsRows` | src/EDA/missing_values.py:129-141 | row k reports the k-th visited pair: its two column names and the p-value of the test on their table |
| `MissingPatterns.PairRowsFacts` | src/EDA/missing_values.py:129-141 | the pairwise table holds C·(C−1)/2 rows; each names two columns whose names are in order; no pair is reported twice |
| `MissingPatterns.PresentWhere` | src/EDA/missing_values.py:153-154 | the present values of the rows on one side of the mask are present values of the column |
| `MissingPatterns.PresentWhereSide` | src/EDA/missing_values.py:153-154 | `vals[mask].dropna()` (or `vals[~mask]`) keeps exactly the present values of the rows whose mask entry is on that side, each once and in row order |
| `MissingPatterns.PresentWherePartition` | src/EDA/missing_values.py:153-154 | the two sides of the mask split the present values: as a multiset, in number and in sum |
| `MissingPatterns.EventRateBounds` | src/EDA/missing_values.py:166-167 | an event rate of values in [0, 1] lies in [0, 1] |
| `MissingPatterns.EventRateRecombines` | src/EDA/missing_values.py:166-167 | the overall event rate is the size-weighted combination of the missing-side and present-side rates |
| `MissingPatterns.OutcomeForFacts` | src/EDA/missing_values.py:151-168 | an iteration raises `KeyError` or a type error for a missing or non-numeric `efs_time`; then `KeyError` for a missing `efs`; then the scipy error when no row has an `efs` value; then a type error for a non-numeric `efs`. Otherwise it reports the column, the rank test on the present `efs_time` values of the missing side against the present side, the chi-square p-value of the crosstab of the mask against `efs`, and the mean `efs` on each side of the mask |
| `MissingPatterns.BothSymmetric` | src/EDA/missing_values.py:159 | whether a row is counted in a crosstab does not depend on which column comes first |
| `MissingPatterns.OutcomeStepDefined` | src/EDA/missing_values.py:148 | the iteration is defined on every column of the frame |
| `MissingPatterns.OutcomeAnalysis` | src/EDA/missing_values.py:147-168 | the filtering loop computes exactly the outcome rows |
| `MissingPatterns.OutcomeForError` | src/EDA/missing_values.py:151-160 | whether an iteration raises, and with what, does not depend on the column examined |
| `MissingPatterns.OutcomeRowsError` | src/eda/missing_values.py:42-63 | with no column missing a value the pass is empty; otherwise it raises exactly when the first such column's iteration does, with that error |
| `MissingPatterns.OutcomeRowsValues` | src/eda/missing_values.py:42-63 | a successful pass holds one row per column with a missing value, in column order, each that column's iteration result |
| `MissingPatterns.OutcomeForName` | src/EDA/missing_values.py:162-163 | a row names the column it examines |
| `MissingPatterns.Patterns` | src/EDA/missing_values.py:113-171 | the whole analysis: the pairwise pass, then the outcome pass; the first error raised ends it |
| `MissingPatterns.AnalyzeMissingPatterns` | src/EDA/missing_values.py:113-171 | the indicator matrix, the pair loop and the filtering loop compute exactly the whole analysis |
| `MissingPatterns.PatternsFacts` | src/EDA/missing_values.py:113-171 | a frame without rows and with two columns raises scipy's empty-table error in the pairwise pass, before any outcome test; otherwise the outcome pass decides success, and a successful analysis returns C·(C−1)/2 pair rows and one outcome row per column with a missing value |
| `Overview.Info` | src/eda/analysis.py:20-27 | the row count is the index length, also on a frame without columns, and every column has that length; the column count is the number of columns, which equals the number of distinct column names |
| `Overview.MissingShareBounds` | src/eda/analysis.py:38 | a missing percentage lies in [0, 100] and is zero exactly when nothing is missing |
| `Overview.MissingSummaryRow` | src/eda/analysis.py:37-43 | summary row k describes the k-th column with a missing value: its name, its NaN count (positive), and the share rounded to two decimals, in [0, 100] and within 0.005 of the exact share |
| `Overview.MissingSummaryColumns` | src/eda/analysis.py:39-43 | the summary lists the columns with a missing value in column order; a column appears exactly when it has a missing value |
| `Overview.NUniqueBounds` | src/eda/analysis.py:54 | `nunique()` is the number of distinct present values; with the missing count it is at most the length; it is zero exactly when every cell is missing |
| `Overview.UniqueCounts` | src/eda/analysis.py:77 | `df.nunique()` gives one count per column, in column order, each the number of distinct present values |
| `Overview.CardinalityColumns` | src/eda/analysis.py:51-55 | the cardinality table lists exactly the object and category columns, in column order, each with its unique count |
| `Overview.MissingData` | src/eda/analysis.py:75 | one missing percentage per column |
| `Overview.MissingDataFacts` | src/eda/analysis.py:75 | the percentage is NaN exactly for a frame without rows; otherwise it lies in [0, 100], is zero exactly when nothing is missing, and rounds to the summary's percentage |
| `Overview.Rows` | src/eda/analysis.py:76 | one row per index, each holding that row's cell of every column |
| `Overview.DuplicateCountDedup` | src/eda/analysis.py:76 | the rows marked duplicated and the distinct rows add up to all rows |
| `Overview.DuplicateFree` | src/eda/analysis.py:76 | no row is marked duplicated exactly when all rows are distinct |
| `Overview.DuplicateCountBounds` | src/eda/analysis.py:76 | the duplicated count plus the number of distinct rows is the row count; the first row is never a duplicate |
| `Overview.DuplicatesFacts` | src/eda/analysis.py:76 | `df.duplicated().sum()` is zero for a frame without columns; otherwise it is the number of rows minus the number of distinct rows, and zero exactly when the rows are distinct; it is below the row count of a frame with rows |
| `Overview.QualityMetrics` | src/eda/analysis.py:74-78 | the quality metrics have one entry per column, and fewer duplicates than rows |
| `Overview.ComplementSum` | src/eda/analysis.py:84 | the sum of `1 - efs` is the count minus the sum of `efs` |
| `Overview.ComplementMean` | src/eda/analysis.py:84 | the mean of the complements is one minus the mean, and NaN exactly when the mean is |
| `Overview.TimeAnalysisErrors` | src/eda/analysis.py:81-85 | the time analysis raises `KeyError` or a type error for `efs`, then for `efs_time` |
| `Overview.TimeAnalysisRates` | src/eda/analysis.py:81-85 | with both columns numeric it succeeds; the event rate is the mean of the present `efs` values; the censoring rate is one minus the event rate, and NaN exactly when the event rate is |
| `Overview.TimeRatesBounded` | src/eda/analysis.py:82-84 | for 0/1 outcomes both rates lie in [0, 1] |

## Left out

- File output (`os.makedirs`, `to_csv`), `print`, and the plots (`visualize_group_differences`) are not modelled. The model returns the tables that would be written.
- The chi-square test and the Mann–Whitney test are parameters. Their numerics are out of scope; a chi-square p-value is only required to lie in [0, 1]. The Mann–Whitney p-value is any real the parameter returns. Its behaviour when one side has no values (a warning and NaN, or an error, depending on the scipy version) is not modelled.
- `missing_indicators.corr()` (line 125), `describe`, `skew`, `kurtosis`, `df.corr()`, `memory_usage`, `dtypes.value_counts()`, and the median follow-up time (src/eda/analysis.py:83) are floating-point statistics and are left out. The lookup of `efs_time` for the median, and the type error on a label column, are modelled; the median value is not.
- Exceptions raised by the left-out statistics of `comprehensive_eda` (for example `df.corr()` on label columns) are not modelled. `Overview.TimeAnalysis` models the time analysis on its own.
- `initial_data_overview` calls `df.describe(include=[np.number])` (src/eda/analysis.py:47) before the cardinality table (src/eda/analysis.py:51-55). On a frame without numeric columns that call raises ValueError; the model does not. `Overview.CardinalityColumns` computes the table as if `describe` had succeeded.
- `Contingency.CrossTab` lists labels in order of first appearance; pandas sorts them. The chi-square statistic and p-value do not depend on row or column order, so only the table's layout differs.
- `Sorting.SortBy`: pandas' default sort is not stable, so the model says nothing about the order of rows with equal keys.
- Floating point is modelled as exact reals. `1e-10` is exact, and the 3- and 2-decimal rounding (half to even) is applied to exact values.
- `GroupDifferences.FeatureRow` keeps the group percentages in a map, apart from the `p_value`, `chi2_statistic`, `max_group_difference` and `significance_score` entries. A group value equal to one of those four names would overwrite the entry in the source; the model does not capture that collision.
- Frames with two columns of the same name are excluded (`Table.Valid`). For such frames `df[name]` returns a frame, not a column.
- `MissingPatterns.PairStepOf` answers positions outside the frame with a fixed error. The loop never visits such positions.
- Both copies of `analyze_missing_patterns` (src/EDA/missing_values.py:113-171 and src/eda/missing_values.py:8-66) are the same function and share one model.
- `Table.NumericCells` decides by dtype alone. pandas' `mean`, `1 - s` and the rank test also succeed on an `object` column that holds only numbers, or only NaN, and the model raises the type error there. Dtypes are part of `Column` for this reason; the model does not look at the values of an `object` column.
- `Overview.TimeAnalysis` computes the censoring rate as the mean of `1 - x` over the present `efs` values. This is what `(1 - df['efs']).mean()` does, since `1 - NaN` is NaN and is skipped.
- src/setup.py is not part of this model.
