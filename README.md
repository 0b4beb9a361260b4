# GOV.UK specimen-date download and reshape, in Dafny

This project models how the genomic-surveillance package gets LTLA
(lower-tier local authority) case counts from the GOV.UK coronavirus API and
reshapes them. It covers three functions of `genomicsurveillance/data/gov_uk.py`:

- `get_ltla_data` walks a list of area codes in order. For each area it
  downloads one table inside a bounded retry loop (`retry`, `failure`,
  `try/except/finally`). It keeps the tables whose loop ended by a download
  with `failure` unset and that are not of shape (0, 0); if the first area
  never downloads, it raises at line 69.
- `extract_covariate` handles each table on its own. It removes duplicate
  rows, sorts by `date` and keeps only `date`, `areaCode` and one covariate.
  Then it concatenates the pieces and pivots them into one wide table: a row
  per date, a column per area, and NaN where an area reports nothing for a
  date.
- `get_specimen` chains the two with the covariate `newCasesBySpecimenDate`.

Files and modules:

- `ordering.dfy` (`Ordering`): Python's `<` on strings (lexicographic by
  code point) and its order laws. It also builds the ascending,
  duplicate-free key sequences the pivot uses, and proves that sequence
  unique.
- `frames.dfy` (`Frames`): a table as the API returns it. That is either the
  frame with no columns or a table with `date`, `areaCode` and metric
  columns whose cells are an integer or missing. It also defines `Shape`.
- `reshape.dfy` (`Reshape`): `extract_covariate` as pure functions
  (`DropDuplicates`, `SortByDate`, `Project`, `Normalize`, `Concatenated`,
  `Pivot`, `ExtractCovariate`), with lemmas about the index, the columns,
  the cells and the error cases.
- `collector.dfy` (`Collector`): the retry loop of one area as a state
  machine (`Pass`, `Run`, `Exit`) and the batch as a reference function
  (`Collect`). Two methods, `FetchRegion` (the `while` loop) and
  `GetLtlaData` (the `for` loop), are imperative and proved equal to them.
  Lemmas cover the counter discipline and which frames survive.
- `gov_uk.dfy` (`GovUk`): `get_specimen` as a method, with a lemma naming
  its only ways to fail.
- `scenarios.dfy` (`Scenarios`): worked cases on concrete tables.

The remote API is an oracle: `api(i, k)` is what the k-th attempt for the
i-th area of the list does, either raise or return a frame. Exceptions
become tagged outcomes:

- `UnboundDataFrame` is the `UnboundLocalError` that line 69 raises when the
  first area never downloads.
- `NoObjectsToConcatenate` is `pd.concat([])`.
- `MissingColumn(c)` is the `KeyError` from `sort_values`/`.loc`.

The retry counter has three consequences that are easy to miss:

- An area whose download always fails gets `max_retry - 1` attempts, not
  `max_retry`. The `finally` clause compares the counter after it has been
  incremented.
- With `max_retry == 1`, a first attempt that succeeds still sets `failure`,
  so the area is dropped.
- With `max_retry < 2`, an area whose every attempt raises never leaves the
  loop.

## Model

| member | source | states |
|---|---|---|
| Collector.Start | genomicsurveillance/data/gov_uk.py:52-53 | the loop's entry state: `retry = 1`, `failure` unset, `df` as the previous area left it; its course is stated by `ExitCounted` and `ExitUncounted` |
| Collector.Pass | genomicsurveillance/data/gov_uk.py:55-67 | one pass of the loop body: the attempt, `retry += 1` on a raise, and the `finally` test on both paths; `FetchRegion` is proved to take exactly these steps |
| Collector.CollectFrom | genomicsurveillance/data/gov_uk.py:50-71 | the `for` loop from the i-th area on, with the `df` the earlier areas left; `CollectFromBound` shows it no longer depends on that `df` once one is bound |
| Collector.Collect | genomicsurveillance/data/gov_uk.py:49-73 | the reference outcome of get_ltla_data, which `GetLtlaData` is proved to return and `CollectIsSurvivors` characterises |
| Collector.Run | genomicsurveillance/data/gov_uk.py:54-67 | the loop: `Pass` repeated from a state until `break` or `failure`; it always stops in a non-running state, with `df` bound after a `break`; `RunCounted`, `RunUncounted` and `RunIgnoresDf` state its course |
| Collector.Steps | genomicsurveillance/data/gov_uk.py:54-67 | the first n passes of the loop, used by `NeverEndsWhenMaxRetryBelowTwo` to show that no number of passes ends it when `max_retry < 2` and every attempt raises |
| Collector.Exit | genomicsurveillance/data/gov_uk.py:52-68 | the retry loop's final state for an area, independent of the termination bound chosen; `ExitCounted`, `ExitUncounted`, `GivesUpAfterMaxRetryMinusOne`, `SucceedsOnAttempt` and `ExitIgnoresDf` state its facts |
| Collector.Survivors | genomicsurveillance/data/gov_uk.py:50-71 | reference result: in list order, the frame of each area whose loop ended by a download with `failure` unset and whose shape is not (0, 0); `CollectIsSurvivors` ties it to `Collect` |
| Collector.GetLtlaData | genomicsurveillance/data/gov_uk.py:46-73 | the imperative double loop returns exactly the reference outcome `Collect`: the downloaded frames that pass the line-69 test, in list order, or the `UnboundDataFrame` error |
| Collector.FetchRegion | genomicsurveillance/data/gov_uk.py:52-68 | the `while not failure` loop with its `try/except/finally` ends with the same `failure` and `df` as the state machine `Exit`, after exactly `Exit`'s number of attempts |
| Collector.ExitCounted | genomicsurveillance/data/gov_uk.py:52-67 | with `max_retry >= 2` there are 1 to `max_retry - 1` attempts; all but the last raised; `failure` is set exactly when none returned; `df` is then unchanged, otherwise it is the returned frame |
| Collector.GivesUpAfterMaxRetryMinusOne | genomicsurveillance/data/gov_uk.py:52-67 | an area that always fails is attempted exactly `max_retry - 1` times and ends with `failure` set and `df` untouched |
| Collector.SucceedsOnAttempt | genomicsurveillance/data/gov_uk.py:54-67 | a first success on attempt n < `max_retry` ends the loop after n attempts with `failure` unset and that frame in `df` |
| Collector.ExitUncounted | genomicsurveillance/data/gov_uk.py:52-67 | with `max_retry < 2` the loop ends only by a download, and `failure` is set exactly when `max_retry == 1` and it was the first attempt |
| Collector.FirstSuccessFlaggedWhenMaxRetryIsOne | genomicsurveillance/data/gov_uk.py:52-69 | with `max_retry == 1`, a first attempt that returns still ends with `failure` set, because `finally` runs on `break` |
| Collector.NeverEndsWhenMaxRetryBelowTwo | genomicsurveillance/data/gov_uk.py:52-67 | with `max_retry < 2` and every attempt raising, no number of passes leaves the loop |
| Collector.ExitIgnoresDf | genomicsurveillance/data/gov_uk.py:52-68 | the loop's course does not depend on the `df` left by the previous area; only a download replaces it |
| Collector.CollectIsSurvivors | genomicsurveillance/data/gov_uk.py:49-73 | get_ltla_data raises exactly when the first area never downloads; otherwise it returns, in list order, the frame of every area that downloaded with `failure` unset and whose shape is not (0, 0); a stale `df` is never appended |
| Collector.SkipsFailingArea | genomicsurveillance/data/gov_uk.py:50-71 | for areas [A, B, C] where B always fails, the result is A's and C's frames, in that order, and nothing raises |
| Collector.RaisesWhenFirstAreaNeverDownloads | genomicsurveillance/data/gov_uk.py:52-69 | if the first area fails all its attempts, the call raises on the unbound `df` |
| Frames.Shape | genomicsurveillance/data/gov_uk.py:69 | `df.shape` as (rows, columns); `ShapeEmptyIff` states when it is (0, 0) |
| Frames.ShapeEmptyIff | genomicsurveillance/data/gov_uk.py:69 | `shape == (0, 0)` holds exactly for the frame without columns; a table with columns and no rows is kept |
| Ordering.Less | genomicsurveillance/data/gov_uk.py:27 | Python's `<` on `str`, used by `sort_values` and for the pivot's sorted keys; its order laws are `LessIrreflexive`, `LessAsymmetric`, `LessTransitive` and `LessTotal` |
| Ordering.LessTransitive | genomicsurveillance/data/gov_uk.py:27 | Python's string order is transitive (with `LessIrreflexive`, `LessAsymmetric` and `LessTotal`, a strict total order) |
| Ordering.LessTotal | genomicsurveillance/data/gov_uk.py:27 | any two different strings are ordered one way or the other |
| Ordering.SortedUnique | genomicsurveillance/data/gov_uk.py:34-41 | the key sequence is strictly ascending and holds exactly the given keys |
| Ordering.AscendingUnique | genomicsurveillance/data/gov_uk.py:34-41 | two strictly ascending sequences with the same members are equal, so the pivot's index and columns are determined by their key sets |
| Reshape.DropDuplicates | genomicsurveillance/data/gov_uk.py:25 | `drop_duplicates()` keeping first occurrences; `Unseen` ensures the result is duplicate-free with the same members, and `DropDuplicatesExact` counts it |
| Reshape.Project | genomicsurveillance/data/gov_uk.py:29 | `.loc[:, ["date", "areaCode", covariate]]`, row by row; `NormalizeRecords` states which records result |
| Reshape.Normalize | genomicsurveillance/data/gov_uk.py:25-29 | one element of the comprehension, with its KeyError cases; `NormalizeRecords` and `ConcatenatedFirstError` state its result |
| Reshape.Concatenated | genomicsurveillance/data/gov_uk.py:23-32 | the comprehension evaluated left to right and concatenated; `ConcatenatedRecords` and `ConcatenatedFirstError` state its result |
| Reshape.Mean | genomicsurveillance/data/gov_uk.py:35 | pivot_table's default `mean` aggregation over the non-missing values; `MeanMissing` and `MeanUniform` state it |
| Reshape.DropDuplicatesExact | genomicsurveillance/data/gov_uk.py:25 | `drop_duplicates` keeps every distinct row of a table and exactly one copy of each |
| Reshape.SortByDate | genomicsurveillance/data/gov_uk.py:27 | sorting by date permutes the rows (same multiset) |
| Reshape.SortByDateSorted | genomicsurveillance/data/gov_uk.py:27 | the sorted rows are in non-decreasing date order |
| Reshape.NormalizeRecords | genomicsurveillance/data/gov_uk.py:25-29 | a table with the covariate yields one `(date, areaCode, covariate)` record per distinct row, and a record exactly when some row projects to it |
| Reshape.ConcatenatedRecords | genomicsurveillance/data/gov_uk.py:23-32 | the concatenation succeeds exactly when every table has columns and the covariate, and then holds exactly the projections of all input rows |
| Reshape.ConcatenatedFirstError | genomicsurveillance/data/gov_uk.py:23-32 | for tables as the API returns them, the first table that cannot be handled decides the error: no `date` column for the (0, 0) frame, otherwise the missing covariate |
| Reshape.Pivot | genomicsurveillance/data/gov_uk.py:34-41 | dates and areas strictly ascending and exactly those of the records; a cell for every (date, area) pair, holding the mean of that pair's non-missing values |
| Reshape.MeanMissing | genomicsurveillance/data/gov_uk.py:35-36 | a cell is NaN exactly when no record gives a value for its date and area |
| Reshape.MeanUniform | genomicsurveillance/data/gov_uk.py:35-36 | a value reported once or repeated is the cell's value |
| Reshape.ExtractCovariate | genomicsurveillance/data/gov_uk.py:22-43 | extract_covariate; `ExtractSucceedsIff`, `ExtractFirstError`, `ExtractIndexAndColumns`, `ExtractCellMissing` and `ExtractCellValue` state its result |
| Reshape.ExtractSucceedsIff | genomicsurveillance/data/gov_uk.py:22-43 | on tables as the API returns them, extract_covariate fails exactly when there is no table, a table has no columns, or a table lacks the covariate; no table gives `NoObjectsToConcatenate` |
| Reshape.ExtractFirstError | genomicsurveillance/data/gov_uk.py:22-32 | the error is that of the first table that cannot be handled |
| Reshape.FirstUnusable | genomicsurveillance/data/gov_uk.py:23-31 | proof helper behind `ExtractFirstError` and `GovUk.SpecimenFailures`: if some table cannot be handled, it finds the least index of one, the table the comprehension raises on |
| Reshape.ExtractIndexAndColumns | genomicsurveillance/data/gov_uk.py:34-41 | the row index is every date of every input row, once, ascending, and no date is dropped because some area lacks it; the columns are every input area code, once, ascending |
| Reshape.ExtractCellMissing | genomicsurveillance/data/gov_uk.py:35-36 | every (date, area) pair has a cell, and it is NaN exactly when no input row reports a value for it, which is never the same as a reported 0 |
| Reshape.ExtractCellValue | genomicsurveillance/data/gov_uk.py:25-36 | the cell holds the value the input reports for its date and area, also when the same row arrives in several tables |
| GovUk.AreaList | genomicsurveillance/data/gov_uk.py:14-15 | `ltla_list`, or the registry's area codes when it is None; used by `GetSpecimen` |
| GovUk.SpecimenOf | genomicsurveillance/data/gov_uk.py:9-19 | get_specimen as a function of the API and the area list, which `GetSpecimen` is proved to return and `SpecimenFailures` characterises |
| GovUk.GetSpecimen | genomicsurveillance/data/gov_uk.py:9-19 | get_specimen downloads the requested areas, or the registry's when none are given, with the default `max_retry`, and reshapes them with `newCasesBySpecimenDate` |
| GovUk.SpecimenFailures | genomicsurveillance/data/gov_uk.py:14-18 | get_specimen fails only because the first area never downloads, because nothing was collected, or because a collected table lacks the covariate, never for want of a `date` column; otherwise it returns the pivot of the collected tables |
| GovUk.DefaultRetryEnds | genomicsurveillance/data/gov_uk.py:47 | with the default `max_retry` of 3 every area's loop ends |
| Scenarios.TwoAreaKeys | genomicsurveillance/data/gov_uk.py:34-41 | for R1 on 2021-02-01 and 2021-02-02 and R2 on 2021-02-02, the index is both dates and the columns are both areas, ascending |
| Scenarios.TwoAreaCells | genomicsurveillance/data/gov_uk.py:35-36 | in that case the cells are 3, 4 and 1, and R2's cell on 2021-02-01 is NaN |
| Scenarios.DuplicateRowCountsOnce | genomicsurveillance/data/gov_uk.py:25 | a row repeated in one table leaves one record, and its value is the cell |
| Scenarios.DuplicatesAcrossTablesKept | genomicsurveillance/data/gov_uk.py:23-31 | de-duplication is per table: the same row in two tables gives two records |

## Left out

- The network client `Cov19API(...).get_dataframe()` is an oracle parameter (`Api`). The `structure` argument is folded into it.
- `get_meta_data()` is an input: `GetSpecimen` takes the registry's area codes as a parameter. The `GovUKAPI.specimen` default is likewise not modelled.
- The `print` of each retry does not affect the result and is left out.
- Exceptions are tagged outcomes (`Attempt`, `Outcome`, `Error`, `Specimen`), not exception objects. Only `Exception` subclasses are caught at line 59; a `BaseException` (such as KeyboardInterrupt) propagating out of the loop is not modelled.
- GetLtlaData: requires `AllEnd`, i.e. every area's loop ends. With `max_retry < 2` and an area whose every attempt raises, the source loops forever. `NeverEndsWhenMaxRetryBelowTwo` shows this instead of modelling the hang.
- Reshape.Pivot: cells are the exact mean over the reals of the non-missing values. Floating-point rounding and the float dtype of pandas are not modelled.
- Reshape.SortByDate: an insertion sort, which is stable. pandas' default quicksort is not stable. The pivot does not depend on row order (`ExtractIndexAndColumns`, `ExtractCellMissing`, `ExtractCellValue` speak only of membership).
- Text columns other than `date` and `areaCode` (such as `areaName`) are not modelled. Metric cells are integers or missing. A repeated row therefore means equal in every modelled column.
- A covariate named `date` or `areaCode` is reported as a missing column. pandas would select the existing column twice.
- An API result that is empty but has columns is a table with no rows. The (0, 0) frame is `NoColumns`.
- Every table other than the (0, 0) frame has `date` and `areaCode` columns (the API's `structure` is assumed to request them). Tables lacking either, on which the source raises KeyError at line 27 or 29, and frames with rows but no columns (shape (n, 0), which line 69 keeps), are not represented.
- The `calls` field of `Loop` and the ghost counters in `FetchRegion` are observations used to state attempt counts. They are not variables of the source.
- `reset_index`, `rename_axis` and `set_index` only rename the output; `Wide` keeps the dates as its index directly.
- There is no check that collided rows agree: when two surviving records share a date and area, the cell is their mean, as `pivot_table`'s `mean` does, computed over the reals.
