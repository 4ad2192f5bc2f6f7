# Missing-value workflow of the EDA dashboard, in Dafny

This project models the core of `EDA_2.py`, a Streamlit dashboard for
exploratory analysis of an uploaded CSV file held as a pandas data frame.
The modelled core is its missing-value workflow:

- the per-column missing-value report (null count and percentage);
- the "needs fixing" view, sorted by percentage, largest first;
- the list of columns a remediation may target;
- the three remediations: drop the rows with a null in the selected
  columns, drop the selected columns, or fill them (mean, median, mode or
  a typed-in value) one column at a time;
- the updated report and the "Data Summary" counts shown afterwards;
- the value-count tables and the tail view that read the same frame.

The data is a `Tables.Table`: a row index and a sequence of named columns,
each with a dtype family (`Kind`) and cells that are `None` for a null.
The pandas routines whose numeric results the model does not compute
(`mean`, `median`, `pd.to_numeric` and whether `fillna` raises) are
parameters, gathered in `Remediation.Library`.

The session and the data frame are objects. `Dashboard.Session` holds a
reference to a `Dashboard.Frame`, and the script's `df` is a second name
for the same frame. The imputation loop writes filled columns into that
frame in place (`Frame.Impute`). The two drop actions store a new frame in
the session, so the data summary later in the same run still reads the
old frame through `df` (`Dashboard.HandleMissingValues`).

The loop is specified by a function, `Remediation.ImputeLoop`. Lemmas then
state what it does for each fill choice:

- which columns it fills, and with what;
- which columns it leaves alone;
- where it stops;
- which messages it shows, and in what order.

## Model

| member | source | states |
|---|---|---|
| Tables.NullCountZero | EDA_2.py:63 | a column's null count is 0 exactly when every cell holds a value |
| Tables.IndexOf | EDA_2.py:123 | `df[col]` finds a column of that name, the first one so named |
| Tables.OccurrencesCount | EDA_2.py:221 | a cell present in a column occurs in it at least once |
| MissingAnalysis.MissingReport | EDA_2.py:63-64 | one entry per column, in column order, carrying its name and its null count (at most the row count); the percentage is count / rows * 100, absent exactly when the table has no rows, and otherwise lies in [0, 100] |
| MissingAnalysis.PercentMonotone | EDA_2.py:88 | a larger missing count gives a percentage at least as large |
| MissingAnalysis.PercentRange | EDA_2.py:64 | a count of at most the row count gives a percentage between 0 and 100 |
| MissingAnalysis.MissingToFixContents | EDA_2.py:87-90 | the view holds the report entry of a column exactly when that column has a null; its entries are report entries with count > 0, each exactly as often as in the filtered report |
| MissingAnalysis.MissingToFixOrdered | EDA_2.py:90 | the view is ordered by non-increasing percentage, and so by non-increasing count |
| MissingAnalysis.ColumnsWithMissing | EDA_2.py:100 | a name is offered exactly when some column of that name has a null; the names come in the table's column order |
| Ranking.SortDesc | EDA_2.py:90 | the result is a permutation of the input, ordered by non-increasing key |
| Ranking.SortDescKeySum | EDA_2.py:90 | sorting keeps the sum of the keys |
| Remediation.KeepRowsExactly | EDA_2.py:106 | the kept rows are exactly those chosen, in their original order, with their labels and cells |
| Remediation.DropNullRows | EDA_2.py:106 | exactly the rows with a value in every selected column remain, in order, with their labels; every column keeps its name and dtype; the result is well formed and the selected columns have no null left |
| Remediation.DropColumns | EDA_2.py:111 | a column remains exactly when it was not selected, in its original relative order; the rows are kept and the result is well formed |
| Remediation.StrLeTotal | EDA_2.py:134 | Python's string order is total |
| Remediation.StrLeTrans | EDA_2.py:134 | Python's string order is transitive |
| Remediation.StrLeAntisym | EDA_2.py:134 | Python's string order is antisymmetric |
| Remediation.Mode | EDA_2.py:134 | `mode()[0]` is absent exactly when the column has no value; otherwise it is a value of the column, no value occurs more often, and it is the least, in sorted order, of the values that occur equally often |
| Remediation.ModeUnique | EDA_2.py:134 | any value that occurs, is of maximum frequency and is least among the values of that frequency is the mode |
| Remediation.FillNullsSound | EDA_2.py:124 | `fillna` leaves no null: each null becomes the fill value, every value stays, the column still agrees with its dtype, and a column without nulls comes back unchanged |
| Remediation.ImputeColumnSound | EDA_2.py:122-144 | one pass of the loop body writes back a column of the same name that agrees with its dtype and changes only null cells |
| Remediation.RunLoopLog | EDA_2.py:121-145 | the loop's messages are the warnings of the columns it passed, in order, then the closing messages: success; error then success after `break`; or the uncaught error alone |
| Remediation.RunLoopTable | EDA_2.py:121-145 | after the loop each column is what the body made of it if the loop reached its name and filled it, and is unchanged otherwise; the rows are kept |
| Remediation.SameStepsSameWarnings | EDA_2.py:121-145 | two tables on which the body acts alike for the remaining names give the same warnings |
| ImputationOutcomes.ReachedFirstStop | EDA_2.py:121-145 | the loop passes every column before its stop point and stops at the first column whose fill raises or crashes |
| ImputationOutcomes.WarningsContent | EDA_2.py:121-145 | a message is among the warnings exactly when the loop skipped some passed column with that warning |
| ImputationOutcomes.ImputeLoopSound | EDA_2.py:121-145 | whatever the fill choice, the loop keeps the table well formed, keeps its rows and column names, leaves unselected columns as they were and changes no cell that held a value |
| ImputationOutcomes.StatisticReachesAll | EDA_2.py:122-131 | a mean or median fill never stops the loop early |
| ImputationOutcomes.ImputeByStatisticLog | EDA_2.py:122-131 | a mean or median fill shows one "not numerical" warning for each selected non-numeric column and no other message before the final success message |
| ImputationOutcomes.ImputeByStatisticTable | EDA_2.py:122-131 | every selected numeric column that has a value gets the statistic in each null, has no null left and stays numeric; a selected non-numeric or all-null column is unchanged |
| ImputationOutcomes.ModeStop | EDA_2.py:132-136 | a mode fill passes every selected column exactly when no selected string column is entirely null; otherwise it stops at such a column |
| ImputationOutcomes.ImputeByModeLog | EDA_2.py:132-136 | the messages are "not categorical" warnings for selected non-string columns; the last one is success exactly when no selected string column is all-null, and otherwise is the uncaught error of such a column |
| ImputationOutcomes.ImputeByModeTable | EDA_2.py:132-136 | every selected string column the loop reached gets its mode in each null and has none left; every other column, including those after the crash, is unchanged |
| ImputationOutcomes.ValueStop | EDA_2.py:137-144 | no column the loop passed rejects the fill text; the loop stops at the first selected column that rejects it, that is, where `to_numeric` raises or `fillna` raises on the converted value |
| ImputationOutcomes.ImputeByValueLog | EDA_2.py:137-145 | no warnings; the log is success alone exactly when no selected column rejects the fill text, and is error then success otherwise; a text that converts to NaN always gives success alone |
| ImputationOutcomes.ImputeByValueTable | EDA_2.py:137-144 | the columns passed before the failure are filled with the converted value and keep their fill after the `break`; every other column is unchanged; a text that converts to NaN (or whose conversion raises) changes nothing |
| Summary.TotalMissingIsReportSum | EDA_2.py:306 | the missing total is the sum of the report's counts and also of the "needs fixing" view's counts |
| Summary.TotalMissingRange | EDA_2.py:306 | the missing total is at most rows times columns, and is 0 exactly when no column has a null |
| Summary.DuplicatesAndDistinct | EDA_2.py:307 | the duplicate-row count plus the number of distinct rows is the row count |
| Summary.DuplicateRowsBound | EDA_2.py:307 | a table with rows has fewer duplicates than rows |
| Summary.KindCounts | EDA_2.py:308-309 | numeric plus object columns are at most all columns, and exactly all when no column is of another dtype |
| Summary.SummaryFacts | EDA_2.py:298-310 | the summary's rows and columns are the table's; its missing total is the report's sum and fits in the table; with columns, duplicates and distinct rows make up the rows, and without columns there are no duplicates; duplicates are fewer than rows when there are rows; numeric and object columns are at most all columns |
| Summary.DistinctCells | EDA_2.py:221 | the distinct cells of a column, null included, each exactly once |
| Summary.ValueCountsEntries | EDA_2.py:221 | each entry is a cell of the column with its exact, positive number of occurrences; every cell, null included, has its entry |
| Summary.ValueCountsDistinct | EDA_2.py:221 | no cell has two entries |
| Summary.ValueCountsTotal | EDA_2.py:221-223 | the entries are ordered by non-increasing count, and the counts add up to the row count |
| Summary.CombinedCountsTotal | EDA_2.py:260-264 | the combined counts add up to the number of selected columns times the row count |
| Summary.CombinedCountsEntries | EDA_2.py:260-264 | every combined entry belongs to a selected column and counts the exact, positive occurrences of its value there |
| Summary.CombinedCountsComplete | EDA_2.py:260-264 | every cell of every selected column, null included, has its entry with its exact count |
| Summary.CombinedCountsDistinct | EDA_2.py:260-264 | with no column selected twice, no (column, value) pair has two entries |
| Summary.Tail | EDA_2.py:53 | the last five rows, or all rows when there are fewer, with their labels and cells; the same columns and dtypes |
| Dashboard.Frame.Impute | EDA_2.py:120-145 | the in-place loop leaves the frame and the messages exactly as `ImputeLoop` specifies for the frame before the loop |
| Dashboard.Session.Upload | EDA_2.py:18-19 | the session holds a new frame with the uploaded table |
| Dashboard.HandleMissingValues | EDA_2.py:43-152 | one run: no change unless a method, a column and the button are chosen; drops store a new frame and leave the old one intact; fills change the same frame as `ImputeLoop` says; the updated report reads the session's frame and the summary reads `df`, and both are missing after an uncaught error |
| Dashboard.DropRowsClearSelection | EDA_2.py:106 | after dropping rows, the report of the new table shows 0 for every selected column, and `cols_with_missing` computed from the new table would not list them |
| Dashboard.DropColumnsClearSelection | EDA_2.py:111 | after dropping columns, no selected column remains, and `cols_with_missing` computed from the new table would not list them |

## Left out

- The Streamlit interface is not modelled: widgets, charts, layout, the sidebar and the reruns triggered by each widget. The method choice, the selected columns and the button press are parameters of `Dashboard.HandleMissingValues`, and one run of the script is modelled.
- Reading and writing CSV (lines 19 and 316-323) are not modelled: the upload takes an already parsed table.
- The other dashboard sections are not modelled: the dataset view, `describe`, dtypes, unique counts, correlation and interactive charts. They only display the frame.
- Rounding to two decimals (lines 64, 151, 224) and floating-point arithmetic are not modelled. Percentages are exact reals.
- The value-count percentage column (line 224) is not modelled. It is a display of `count / total`, and `Summary.ValueCountsTotal` proves `total` is the row count.
- The mean, the median, `pd.to_numeric` and whether `fillna` raises are parameters (`Remediation.Library`), not computed. A column without any value has a NaN statistic, and filling with NaN is modelled as no change.
- Dtype inference is abstracted into four families (`Kind`). Booleans, datetimes and categories are all `Other`. Type promotion after a fill is modelled only as widening to mixed object.
- Sort stability is not modelled. Tie order in `sort_values` (line 90) and `value_counts` (lines 221 and 261) follows pandas internals. `Ranking.SortDesc` fixes one tie order of its own, and the lemmas state only what holds for every tie order.
- Dashboard.HandleMissingValues: requires the selected columns to be distinct. Streamlit's multiselect never returns a name twice.
- Dashboard.HandleMissingValues: covers only the run in which the "Missing Values" section is shown. The summary it returns is the one at lines 298-312.

## Behaviour worth knowing

- **Ties in `mode()`:** pandas `mode()` returns the tied values sorted, and line 134 takes the first of them. So the model picks the least value in Python order (`Remediation.Mode`, `Remediation.ModeUnique`).
- **Specific-value fill:** on a failure the loop `break`s (line 144). The columns filled before the failing one keep their fill, and the success message still follows the error message (`ImputationOutcomes.ImputeByValueTable`, `ImputationOutcomes.ImputeByValueLog`).
- **Conversion of the fill text:** `pd.to_numeric(..., errors='ignore')` (line 140) gives a number, the text itself, or NaN for a text such as "nan" or an empty one; it may also raise, inside the `try`. A NaN fill is a no-op of `fillna`, so the run shows success and changes nothing (`Conversion.AsMissing`); a raise takes the error path (`Conversion.ConversionRaises`, `Remediation.Rejects`).
- **Mode of an all-null string column:** `mode()` is then empty and `mode()[0]` raises `KeyError: 0`, which nothing catches. The run ends there, with no success message, no updated report and no summary (`ModeLookupError`, `Dashboard.Stopped`).
- **Duplicates of a frame without columns:** `df.duplicated()` of such a frame marks nothing, so the summary shows 0 duplicates whatever the row count (`Summary.DuplicateCount`).
- **A remediation lasts one run:** lines 18-19 re-read the uploaded file into the session at the start of every run while the file stays in the uploader, so the run after a drop or a fill starts again from the original table. The model covers the one run that applies the remediation (`Dashboard.HandleMissingValues`); `Dashboard.Session.Upload` is that re-read.
