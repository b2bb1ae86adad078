# Insurance analytics core: A/B hypothesis testing and missing-data cleaning

This project models two classes of an insurance-claims analysis toolkit.

- `ABHypothesisTesting` (`scripts/hypothesis_testing.py`) runs a battery of
  four scenarios on an insurance table. Two of them are chi-squared tests of
  Province and PostalCode against TotalPremium. The third compares the margin
  between the first two postal codes, by a z-test when both groups have more
  than 30 rows and by a t-test otherwise. The fourth is a t-test between the
  Male and Female rows, taken after the "Not Specified" rows have been
  removed from the object's own table. A t-test is skipped when TotalPremium
  has a single distinct non-missing value. Each p-value is interpreted
  against alpha = 0.05.
- `DataProcessing` (`scripts/data_processing.py`) summarises the missing
  cells of each column as a count and a percentage, sorted by percentage with
  the largest first. It drops the columns of the "high" bucket and fills the
  missing cells of the other buckets. An object column is filled with its
  mode, or "Unknown" when it has no value. A numeric column is filled with
  its median, or 0 when it has no value. The driver block of the same file is
  modelled as `Processing.CleanData`. It puts columns above 50 % in the high
  bucket, those in (20, 50] in the moderate bucket and those below 20 % in
  the low bucket, then handles the three buckets in turn on the same object.

The Dafny modules:

| file | module | contents |
|---|---|---|
| `wrappers.dfy` | `Wrappers` | `Option` and `Result` |
| `tables.dfy` | `Tables` | the table (ordered columns, dtype per column, rows of possibly missing cells), missing counts, `dropna`, row filtering |
| `collections.dfy` | `Collections` | `unique()` in first-appearance order |
| `sorting.dfy` | `Sorting` | a sort by a real-valued key |
| `statistics.dfy` | `Statistics` | median and mode |
| `hypothesis_testing.dfy` | `HypothesisTesting` | the segmentation, the tests, the scenarios and the class `ABHypothesisTesting` |
| `data_processing.dfy` | `Processing` | the summary, dropping and filling, the class `DataProcessing` and the driver |

The tables are modelled as follows.

- A pandas frame is a `Tables.Table`.
- A missing cell is `None`, standing for NaN. `isnull()` treats a Python
  `None` the same way, but segmentation and `unique()` do not (see "Left out").
- Dtypes are reduced to what the code inspects: `object`, or anything else.
- A column the code indexes but the table lacks makes pandas raise
  `KeyError`. The model returns `Failure(KeyError(column))` instead.
- The three statistics routines (scipy's `chi2_contingency` and
  `ttest_ind`, and the z-test's mean, standard deviation and normal CDF) are
  the fields of a `Library` value that the class holds. The model states
  which samples each routine receives and that the reported numbers are
  what it returns, not what those numbers are.

`run_all_tests` has no `try`/`except`. A scenario that raises therefore
aborts the whole battery, and no dictionary is returned. The model follows
the code: `RunAllTests` propagates the first failure. It does not substitute
a message per scenario. Likewise, `_segment_data` called with neither a value nor an exclusion
list copies the table without reading the feature column, so the model
raises no error in that case.

## Model

| member | source | states |
|---|---|---|
| Tables.Column | scripts/hypothesis_testing.py:105 | one cell per row, the row's cell of the column |
| Tables.MissingCount | scripts/data_processing.py:22 | the count equals the number of missing cells in the column; it is at most the row count, and is zero exactly when every cell of the column is present |
| Tables.PresentValues | scripts/hypothesis_testing.py:30 | each value occurs as often as the column holds it; the values number the rows minus the missing cells, and a value is among them exactly when some row holds it in that column |
| Tables.PresentValuesAppend | scripts/hypothesis_testing.py:49 | `dropna()` keeps row order: the values of a concatenation are the values of its parts, one after the other |
| Tables.NoPresentValueIffAllMissing | scripts/data_processing.py:43 | a column has no present value exactly when all its cells are missing |
| Tables.Keep | scripts/hypothesis_testing.py:17 | a row is kept exactly when it is one of the input rows and passes the test; never more rows than the input |
| Tables.KeepAppend | scripts/hypothesis_testing.py:17 | filtering distributes over concatenation, so the kept rows stay in their original order |
| Tables.KeepAll | scripts/hypothesis_testing.py:22 | when every row passes, filtering returns the rows unchanged |
| Tables.KeepIdempotent | scripts/hypothesis_testing.py:17 | filtering twice with one test equals filtering once |
| Tables.KeepMissingTarget | scripts/hypothesis_testing.py:22 | selecting rows equal to a missing value keeps none, because NaN equals nothing |
| Collections.Unique | scripts/hypothesis_testing.py:105 | the distinct values, without duplicates, each taken from the input and covering every input value, missing included once |
| Collections.UniquePrefix | scripts/hypothesis_testing.py:105 | the distinct values of a prefix are a prefix of the distinct values of the whole |
| Collections.UniqueOfConstant | scripts/hypothesis_testing.py:30-31 | a sequence of one repeated value has exactly that one distinct value |
| Collections.UniqueFirst | scripts/hypothesis_testing.py:109 | the first distinct value is the first element |
| Collections.UniqueFirstTwo | scripts/hypothesis_testing.py:109-110 | the second distinct value is the first element that differs from the first |
| Collections.UniqueAtLeastTwo | scripts/hypothesis_testing.py:106 | there are at least two distinct values exactly when two elements differ |
| Sorting.Insert | scripts/data_processing.py:28 | inserting into a sorted sequence gives a sorted sequence with one more element, a permutation of the input plus that element |
| Sorting.SortBy | scripts/data_processing.py:25-28 | the result is sorted by the key and is a permutation of the input |
| Sorting.DistinctPermutation | scripts/data_processing.py:25-28 | reordering a sequence without repeats leaves it without repeats |
| Statistics.CountBeyondPermutation | scripts/data_processing.py:43 | the number of values below or above a bound is the same for any permutation of the values |
| Statistics.MiddleIsMedian | scripts/data_processing.py:43 | the middle element of a sorted sequence of odd length, or the mean of its two middle elements for even length, has at most half the values below it and at most half above it |
| Statistics.MedianOfSorted | scripts/data_processing.py:43 | that property carries over from the sorted copy to the unsorted values |
| Statistics.AscendingPermutationUnique | scripts/data_processing.py:43 | two ascending arrangements of the same values are equal, so "the values in ascending order" is one sequence |
| Statistics.Median | scripts/data_processing.py:43 | the median is the middle element of the values in ascending order, or the mean of the two middle elements for an even count; hence at most half the values lie below it and at most half above it, for odd length it is one of the values, and for even length it is the mean of two of them |
| Statistics.MostFrequent | scripts/data_processing.py:41 | the chosen candidate is one of the candidates, and no candidate occurs more often in the values |
| Statistics.Mode | scripts/data_processing.py:41 | the mode is one of the values, and no value occurs more often |
| HypothesisTesting.Segment | scripts/hypothesis_testing.py:12-24 | fails with KeyError exactly when a value or an exclusion list is given and the feature is not a column; otherwise a row survives exactly when it is in the table, its feature is not excluded, and it equals the value; never more rows than the table; columns and dtypes are unchanged; with neither argument the table is returned as is |
| HypothesisTesting.SegmentKeepsOrder | scripts/hypothesis_testing.py:16-22 | for every combination of value and exclusion list, the segment of a concatenation of rows is the concatenation of the segments; with the length bound and membership of `Segment`, this fixes the surviving rows, their order and their multiplicity |
| HypothesisTesting.Selected | scripts/hypothesis_testing.py:22 | the rows kept are exactly the table's rows whose feature equals the target, and they are the boolean-indexing result `Keep`, so their order and number are those of the table; columns and dtypes unchanged |
| HypothesisTesting.CheckIdenticalValues | scripts/hypothesis_testing.py:26-31 | KeyError exactly when the metric is not a column; otherwise true exactly when the column has a non-missing value and every non-missing cell holds that value |
| HypothesisTesting.DistinctCountIsOne | scripts/hypothesis_testing.py:30-31 | having one distinct non-missing value is the same as every non-missing cell sharing one existing value |
| HypothesisTesting.AllMissingIsNotIdentical | scripts/hypothesis_testing.py:30-31 | an all-missing metric column counts as not identical |
| HypothesisTesting.CrossTabPairs | scripts/hypothesis_testing.py:37 | each (feature, metric) pair of present values occurs as often as rows hold it; rows with a missing feature or metric cell contribute nothing |
| HypothesisTesting.ChiSquaredTest | scripts/hypothesis_testing.py:33-39 | KeyError exactly when the feature or the metric is missing, naming the feature first; otherwise the library's chi-squared result on the cross-tabulated pairs of the whole table |
| HypothesisTesting.TTest | scripts/hypothesis_testing.py:41-50 | with a constant metric over the whole table it is skipped with neither statistic nor p-value, whatever the groups; it is skipped in no other case; it fails, with KeyError of the metric, exactly when the metric is not a column of the table, or it is not constant and a group lacks it; otherwise the statistic and p-value are the library's t-test on the two groups' non-missing metric values |
| HypothesisTesting.ZTest | scripts/hypothesis_testing.py:52-62 | KeyError exactly when a group lacks the metric; otherwise the library's z-test on the two groups' non-missing metric values |
| HypothesisTesting.Interpret | scripts/hypothesis_testing.py:64-70 | no p-value means skipped; a p-value strictly below alpha means reject; otherwise fail to reject |
| HypothesisTesting.InterpretDecides | scripts/hypothesis_testing.py:64-70 | each of the three messages is produced exactly in its own case |
| HypothesisTesting.InterpretMonotone | scripts/hypothesis_testing.py:70 | a p-value equal to alpha fails to reject, and lowering a rejected p-value keeps it rejected |
| HypothesisTesting.ChiSquaredScenario | scripts/hypothesis_testing.py:72-84 | fails exactly when the feature or TotalPremium is missing, with the chi-squared test's error; otherwise a chi-squared report for that feature whose statistic and p-value are the chi-squared test's result and whose interpretation matches its p-value |
| HypothesisTesting.ChooseTest | scripts/hypothesis_testing.py:112 | the z-test exactly when both groups have more than 30 rows |
| HypothesisTesting.ChooseTestMonotone | scripts/hypothesis_testing.py:112 | growing the groups never turns a z-test choice into a t-test |
| HypothesisTesting.MarginBetweenPostalCodes | scripts/hypothesis_testing.py:101-117 | KeyError without PostalCode; the fixed notice with fewer than two distinct codes; otherwise the groups of the first two codes are compared, by the z-test exactly when both have more than 30 rows and by the t-test on the whole table's skip guard otherwise, and the report carries that test's statistic and p-value; it fails only without TotalPremium; the interpretation matches the p-value |
| HypothesisTesting.MarginComparesFirstTwoCodes | scripts/hypothesis_testing.py:105-110 | the compared codes are those of the first row and of the first row whose code differs from it |
| HypothesisTesting.NotEnoughCodesIffAllEqual | scripts/hypothesis_testing.py:105-107 | there are fewer than two codes exactly when all rows share one code, a missing code counting as one |
| HypothesisTesting.MissingFirstCodeMeansTTest | scripts/hypothesis_testing.py:109-117 | a NaN first postal code selects an empty group under `==`, so the t-test branch is taken |
| HypothesisTesting.WithoutUnspecifiedGender | scripts/hypothesis_testing.py:90 | the kept rows are exactly those whose Gender is not "Not Specified", and they are the boolean-indexing result `Keep`, in table order and multiplicity; columns are unchanged |
| HypothesisTesting.WithoutUnspecifiedGenderIdempotent | scripts/hypothesis_testing.py:90 | filtering out "Not Specified" a second time changes nothing |
| HypothesisTesting.GenderTest | scripts/hypothesis_testing.py:92-99 | the empty-group notice exactly when there is no Male row or no Female row; otherwise a t-test report (never another notice) carrying the t-test of the Male and Female groups of the table, whose interpretation matches its p-value, failing only without TotalPremium |
| HypothesisTesting.EmptyIffNone | scripts/hypothesis_testing.py:95 | a gender group is empty exactly when no row has that gender |
| HypothesisTesting.RunAllTestsNotIdempotent | scripts/hypothesis_testing.py:119-129 | after the gender filter of a first battery, the province scenario of a second battery hands the chi-squared routine another multiset of (Province, TotalPremium) pairs, so with some library it reports another statistic |
| HypothesisTesting.ABHypothesisTesting.constructor | scripts/hypothesis_testing.py:6-10 | the object holds the given table |
| HypothesisTesting.ABHypothesisTesting.RiskBetweenGenders | scripts/hypothesis_testing.py:86-99 | the object's table becomes the table without "Not Specified" rows, and the result is the gender test of that table; without a Gender column it is a KeyError and the table is unchanged |
| HypothesisTesting.ABHypothesisTesting.RunAllTests | scripts/hypothesis_testing.py:119-129 | succeeds exactly when the two chi-squared scenarios and the margin scenario succeed and Gender is a column; on failure the error is the first failing scenario's and the table is unchanged; on success the four keys map to the scenario results on the table as it was before the call, the gender entry is computed on the filtered table, which the object keeps, and every report's interpretation matches its p-value |
| Processing.MissingEntries | scripts/data_processing.py:22-24 | an entry for each column that has a missing cell and only for such columns, with its count and its percentage of the rows; with distinct column names, one entry per column |
| Processing.Remaining | scripts/data_processing.py:36 | a name survives exactly when it is not dropped; distinct names stay distinct |
| Processing.RemainingAppend | scripts/data_processing.py:36 | the surviving columns keep their order |
| Processing.DropColumns | scripts/data_processing.py:35-36 | the table stays well formed; a column remains exactly when it was there and is not listed, and names that are not columns are ignored; rows, dtypes and the remaining cells are unchanged |
| Processing.Numbers | scripts/data_processing.py:43 | each number occurs as often as the values hold it; with only numbers among the values, none is lost |
| Processing.NumbersOfNumericColumn | scripts/data_processing.py:43 | in a numeric column of a well-formed table every present value is a number, so the column has no number exactly when `isnull().all()` holds |
| Processing.FillValue | scripts/data_processing.py:40-43 | an object column gets a most frequent non-missing value, or "Unknown" when it has none; a numeric column gets the middle of its numbers in ascending order (the mean of the two middle ones for an even count), which is a median, or 0 when it has none |
| Processing.FillValueOfSameColumn | scripts/data_processing.py:41-43 | the fill value depends only on the column's dtype and cells |
| Processing.FillColumn | scripts/data_processing.py:41 | columns, dtypes and row count are unchanged, and each row has the column's missing cell filled |
| Processing.FillColumnValid | scripts/data_processing.py:41-43 | filling with the column's fill value keeps the table well formed |
| Processing.FilledConsequences | scripts/data_processing.py:37-50 | after filling, a listed column has no missing cell, a present cell is unchanged, and an unlisted column is unchanged |
| Processing.FirstFillValue | scripts/data_processing.py:38-43 | the first time a column is filled, its fill value is the one computed from the table before the loop |
| Processing.FillStep | scripts/data_processing.py:38-43 | one iteration on an existing column extends the filled prefix of the list by one |
| Processing.SkipStep | scripts/data_processing.py:39 | one iteration on a name that is not a column changes nothing and extends the filled prefix |
| Processing.Bucket | scripts/data_processing.py:62-64 | high exactly above 50, moderate exactly in (20, 50], low exactly below 20 |
| Processing.BucketGap | scripts/data_processing.py:62-64 | exactly 20 % falls in no bucket |
| Processing.ColumnsIn | scripts/data_processing.py:62-64 | the listed columns are exactly those of summary entries in that bucket |
| Processing.PercentageZero | scripts/data_processing.py:24 | a missing percentage is never negative, and is zero exactly when the column has no missing cell |
| Processing.BucketsOfColumns | scripts/data_processing.py:62-64 | each bucket list holds exactly the table's columns whose missing percentage is in that bucket's range |
| Processing.CleanOutcome | scripts/data_processing.py:66-68 | after dropping then the two fills, the columns are those at most 50 % missing, those not at exactly 20 % have no missing cell, present cells are unchanged, and exactly-20 % columns are unchanged |
| Processing.CleanFillValues | scripts/data_processing.py:66-68 | each gap the two fills close gets the fill value of the raw table's column, since the moderate and low lists are disjoint |
| Processing.ColumnFillValues | scripts/data_processing.py:66-67 | dropping leaves a kept column's fill value unchanged, and so does the moderate fill for a column not in its list |
| Processing.CleanRawCell | scripts/data_processing.py:66-68 | one raw cell through the driver: kept when present or at exactly 20 %, otherwise filled with the raw column's fill value |
| Processing.CleanColumns | scripts/data_processing.py:66-68 | dropping then filling keeps the surviving columns in raw order with their raw dtypes |
| Processing.DataProcessing.constructor | scripts/data_processing.py:6-13 | the object holds the given table |
| Processing.DataProcessing.MissingDataSummary | scripts/data_processing.py:15-29 | exactly the columns with a missing cell, each with its count and percentage, one entry per column when the column names are distinct, sorted by percentage with the largest first, a permutation of the per-column entries |
| Processing.SummaryOfEntries | scripts/data_processing.py:25-28 | sorting the per-column entries by descending percentage keeps exactly those entries (one per column when the column names are distinct) in non-increasing order of percentage |
| Processing.OneEntryPerColumn | scripts/data_processing.py:25-28 | reordering entries whose columns are distinct keeps the columns distinct, since an entry is determined by its column |
| Processing.DataProcessing.HandleMissingData | scripts/data_processing.py:31-51 | "high" drops the listed columns; any other type, "moderate" included, fills the listed columns that exist; the result is the new table, which the object keeps and which stays well formed |
| Processing.DataProcessing.FillMissing | scripts/data_processing.py:38-43 | every listed column that exists gets its missing cells filled with the fill value of the table before the loop, and nothing else changes |
| Processing.CleanData | scripts/data_processing.py:56-68 | the cleaned table is well formed with the same rows; its columns are the raw columns at most 50 % missing, in their raw order, with their raw dtypes; a gap of a column not at exactly 20 % is filled with that column's fill value in the raw table; present cells are unchanged; exactly-20 % columns are unchanged |

## Left out

- Message formatting: each report keeps the statistic and p-value as numbers instead of the f-string text. The warning `print` in `_t_test` is not modelled either.
- The numerics of `chi2_contingency`, `ttest_ind`, and the z-test's mean, standard deviation, square root and normal CDF are opaque `Library` functions. Floating-point behaviour, NaN and infinite statistics, and any exception scipy raises on a degenerate contingency table are not modelled.
- HypothesisTesting.Interpret: p-values are reals, so the NaN p-value case is not modelled. A NaN p-value would fail to reject, because `NaN < alpha` is false.
- HypothesisTesting.ChiSquaredTest: the contingency table is not built. The model only states which (feature, metric) pairs the library receives.
- HypothesisTesting.ZTest: the mean, standard deviation and normal CDF arithmetic is inside the library function, so the formula for z is not modelled.
- Reading the CSV, writing the JSON summary and the cleaned CSV, and creating directories in the driver are not modelled. `Processing.CleanData` takes the table as a parameter and returns the cleaned one.
- Processing.DataProcessing.MissingDataSummary: pandas' default sort is not stable. The model uses a stable sort and promises only non-increasing order and a permutation, so the relative order of columns with equal percentages is unspecified.
- Statistics.Mode: with several most frequent values pandas takes the smallest. The model takes the earliest in row order, so the contract promises only "a most frequent value".
- pandas index labels, dtype inference, and integer-versus-float dtype distinctions are not modelled. Ints and floats are both `Num` of a real.
- Aliasing: `self.data = data` keeps the caller's DataFrame, and a fill assigns columns of it in place, so a caller that did not drop first sees its own frame change. `Table` is a value here, so no caller's table changes.
- A missing cell stands for NaN only. A Python `None` in an object column differs in two ways. `_segment_data` tests `value is not None`, so a `None` postal code passed as the value disables the filter and the group is the whole table. pandas' `unique()` also lists `None` and NaN as two values, where `Collections.Unique` has one missing value.
- `run_all_tests` returns a dict in insertion order. The model returns a `map`, which has no order.
- `scripts/model_building.py` and the zip-extraction helper are not part of this model.
