# EDA app: dataset session and cleaning commands

This project models the state and the computations at the heart of a
Streamlit app for exploratory data analysis (`streamlit_app.py`). Its parts
are:

- **Session slots.** Each browser session holds a working table `df` and a
  snapshot `original_df`. An upload loads both. A reset copies the snapshot
  back into the working table. A cleaning command commits a cleaned copy of
  the working table.
- **Cleaning commands.** Missing entries can be filled with the column mean,
  median, mode or zero, or the incomplete rows can be dropped. The commands
  apply to a target column set. An empty selection defaults to the numeric
  columns for a fill and to every column for a row drop.
- **Strong-correlation pairs.** The upper triangle of the correlation matrix
  is scanned for coefficients whose magnitude reaches a threshold. The pairs
  are then ordered strongest first.
- **Chart arithmetic.** This covers the histogram subplot grid and the gate
  and sample size of the pair plot.

Modules:

- `Wrappers`: `Option` and `Result`.
- `Tables`: the dataframe. It has a row count and named columns. Each column
  has a dtype tag (float64, int64, other numeric, non-numeric) and one
  optional value per row; `None` is a missing entry (NaN).
- `Cleaning`: the exact mean, `fillna`, the fill loop, `dropna(subset=...)`,
  target defaulting and the dispatcher `Clean`. `CleaningExamples` holds two
  worked examples.
- `Session`: the class `DatasetSession` with its two slots, and the
  load/reset/apply transitions.
- `Correlation`: the nested scan loop, the ordering by magnitude and the
  combined table.
- `Layout`: the histogram grid and the pair-plot gate.

Tables are Dafny values, so `df.copy()` is plain assignment. Two slots
loaded from one table are independent: the `Apply` contract states that the
snapshot is never changed.

Some of the code's behaviour is easy to misread:

- Mean and median fills touch only columns whose dtype is exactly float64
  or int64. Other numeric dtypes are skipped, although they are offered as
  targets.
- A failed parse is caught and reported, and it leaves both slots unchanged.
- The pair plot also needs at least two numeric columns, because it sits
  inside the correlation tab's `len(numeric_df.columns) >= 2` branch.
- In pandas, `dropna(subset=...)` raises a KeyError when a label names no
  column. `DropNa` returns that as a `Failure`, and `Apply` then leaves the
  session unchanged.
- The mean of a column with no present entry is NaN. `fillna(NaN)` changes
  nothing, so the model represents that statistic as `None` and the fill as
  a no-op.

## Model

| member | source | states |
|---|---|---|
| Tables.NumericNames | streamlit_app.py:113 | a name is listed exactly when some column has that name and a numeric dtype, and with distinct headers no name is listed twice |
| Tables.Names | streamlit_app.py:152 | one name per column, in column order |
| Tables.ColumnIndex | streamlit_app.py:127 | finds a column with the given name, or reports that no column has it |
| Cleaning.Mean | streamlit_app.py:128 | the mean exists exactly when the column has a present number, and it is a number |
| Cleaning.MeanWithin | streamlit_app.py:128 | the mean lies between the lowest and highest present values |
| Cleaning.FillNa | streamlit_app.py:128 | `fillna` keeps present entries and puts the fill value in every missing one |
| Cleaning.FillNaCompletes | streamlit_app.py:128 | filling with a defined value leaves nothing missing |
| Cleaning.FillNaNoop | streamlit_app.py:140-142 | filling with NaN, or filling a column with no gaps, changes nothing |
| Cleaning.Eligible | streamlit_app.py:127-146 | mean and median fills accept exactly the float64 and int64 columns; mode and zero fills accept every column; a row drop fills nothing |
| Cleaning.Statistic | streamlit_app.py:125-148 | the fill value is the column's mean (defined iff a number is present), its median, the first entry of its mode list (defined iff that list is non-empty), or 0 |
| Cleaning.MedianFill | streamlit_app.py:131-135 | a median fill of a float64 or int64 column with no present number changes nothing; otherwise it leaves no gap and every filled value stays within any bounds of the present values |
| Cleaning.FillColumn | streamlit_app.py:126-148 | keeps name, dtype and length; leaves a column the dtype guard rejects, or whose statistic does not exist, unchanged |
| Cleaning.FillColumnIdempotent | streamlit_app.py:125-148 | filling a column twice equals filling it once, whatever the second pass computes |
| Cleaning.FillAll | streamlit_app.py:122-148 | keeps rows, column names and dtypes; every column outside the targets is unchanged |
| Cleaning.FillAllCells | streamlit_app.py:125-135 | in an accepted target column each missing entry becomes the statistic and each present entry is kept |
| Cleaning.FillAllCompletes | streamlit_app.py:125-148 | an accepted target column whose statistic exists has no missing entry after the fill |
| Cleaning.FillAllIdempotent | streamlit_app.py:145-148 | applying a fill twice gives the same table as applying it once |
| Cleaning.FillStep | streamlit_app.py:126-128 | one loop turn fills the named column (if present) and extends the filled prefix by that name |
| Cleaning.FillTargets | streamlit_app.py:125-148 | the `for col in cols` loop produces the table with every target column filled once |
| Cleaning.ModeFill | streamlit_app.py:137-143 | with no mode the column is unchanged; otherwise every gap becomes a most frequent value and none remain |
| Cleaning.KeptRows | streamlit_app.py:154 | the kept row indices are increasing and are exactly the rows with no gap in a checked column |
| Cleaning.KeptPlusIncomplete | streamlit_app.py:153-156 | kept rows plus incomplete rows equals the row count |
| Cleaning.Project | streamlit_app.py:154 | the chosen rows, in order, under the same columns |
| Cleaning.AbsentLabels | streamlit_app.py:154 | exactly the subset labels that name no column |
| Cleaning.DropNa | streamlit_app.py:154 | raises exactly when a subset label names no column |
| Cleaning.DropNaRows | streamlit_app.py:151-156 | the result keeps exactly the complete rows, in order, with the same columns; the deleted count is non-negative and equals the number of incomplete rows |
| Cleaning.DropNaCompletes | streamlit_app.py:154 | no checked column has a gap after the drop |
| Cleaning.DroppedRowsComplete | streamlit_app.py:154 | every surviving row is complete |
| Cleaning.AllKept | streamlit_app.py:154 | with every row complete, every row is kept |
| Cleaning.ProjectAll | streamlit_app.py:154 | projecting onto all rows in order gives the same table |
| Cleaning.DropNaIdempotent | streamlit_app.py:154 | dropping a second time removes nothing |
| Cleaning.SelectableTargets | streamlit_app.py:113-119 | fill targets are offered from the numeric columns only; row-drop targets from every column |
| Cleaning.FillColumnsOf | streamlit_app.py:123 | a non-empty selection is used as is; an empty one becomes exactly the numeric columns |
| Cleaning.DropSubsetOf | streamlit_app.py:152 | a non-empty selection is used as is; an empty one checks exactly the column names |
| Cleaning.ZeroFillDefaultsToNumeric | streamlit_app.py:123 | an empty selection zero-fills every numeric column completely |
| Cleaning.DropDefaultsToAllColumns | streamlit_app.py:152 | an empty selection checks every column, so no gap survives anywhere |
| Cleaning.Clean | streamlit_app.py:121-156 | the dispatcher fills the defaulted targets, or drops over the defaulted subset and reports `before - after`, or raises for an absent label |
| CleaningExamples.MeanFillExample | streamlit_app.py:125-128 | age [20, NaN, 40] becomes [20, 30, 40]; city is unchanged |
| CleaningExamples.DropExample | streamlit_app.py:151-154 | dropping over city succeeds and leaves exactly rows 0 and 1 of the table, in order |
| Session.DatasetSession.constructor | streamlit_app.py:63-66 | both slots start empty |
| Session.DatasetSession.Load | streamlit_app.py:85-91 | a parse sets both slots to the parsed table; a parse failure changes neither slot and returns the message |
| Session.DatasetSession.Reset | streamlit_app.py:98-102 | when loaded, the working table becomes the snapshot; the snapshot is untouched; otherwise nothing happens |
| Session.DatasetSession.Apply | streamlit_app.py:121-159 | commits the result of the chosen command; a raised KeyError commits nothing; the snapshot never changes; the columns match the snapshot's |
| Session.DatasetSession.RunAsWritten | streamlit_app.py:77-91 | every run with an uploaded file reloads both slots from it |
| Session.DatasetSession.Run | streamlit_app.py:77-91 | a run reloads only for an upload not loaded yet; otherwise the slots are kept |
| Session.RerunDiscardsCleaning | streamlit_app.py:85-88 | load, zero-fill, rerun: the session's working table is again the raw file with its gap |
| Session.RerunKeepsCleaning | streamlit_app.py:85-88 | with the corrected run the session's working table is still the zero-filled table after the rerun |
| Correlation.Strong | streamlit_app.py:409 | a defined coefficient qualifies iff its magnitude reaches the threshold; a NaN coefficient never qualifies |
| Correlation.RowPairs | streamlit_app.py:408-414 | the row's pairs are exactly those (i, j) with i < j < m that qualify, in increasing j |
| Correlation.ScanPairs | streamlit_app.py:406-414 | the scanned pairs are exactly the qualifying upper-triangle pairs, in row-major order |
| Correlation.ScanRow | streamlit_app.py:408-414 | the inner `for j` loop appends exactly the row's qualifying pairs, in increasing j |
| Correlation.ScanUpperTriangle | streamlit_app.py:406-414 | the outer loop, one row at a time, produces exactly the qualifying upper-triangle pairs in row-major order |
| Correlation.InsertByStrength | streamlit_app.py:418 | inserting keeps the list ordered by magnitude and adds exactly one element |
| Correlation.SortByStrength | streamlit_app.py:418 | the result is ordered by magnitude, strongest first, and is a permutation of the input |
| Correlation.DistinctPermutation | streamlit_app.py:418 | reordering a list without repeats gives a list without repeats |
| Correlation.StrongCorrelations | streamlit_app.py:403-419 | a pair is listed iff i < j and the magnitude of its coefficient reaches the threshold; no pair twice; strongest first |
| Correlation.ThresholdExample | streamlit_app.py:406-414 | with r(X,Y)=0.6, r(X,Z)=0.3 and threshold 0.5, only (X, Y) is reported |
| Layout.HistogramGrid | streamlit_app.py:302-303 | the column count is min(3, k); there are enough cells for k plots and no fully empty row, so the row count is ceil(k / cols) |
| Layout.HiddenAxes | streamlit_app.py:318-319 | the hidden axes are exactly the cells k .. rows*cols-1, in increasing order, and fewer than one row of them |
| Layout.AtMostTwoRows | streamlit_app.py:294-303 | a selection of at most six columns needs at most two rows |
| Layout.PairPlotOffered | streamlit_app.py:373-426 | the pair plot is offered exactly for a non-empty table with between 2 and 6 numeric columns |
| Layout.PairPlotSampleSize | streamlit_app.py:433 | the sample has at most 500 rows and at most the table's rows, and equals one of the two |
| Layout.OfferedSampleNonEmpty | streamlit_app.py:426-433 | an offered pair plot samples between 1 and 500 rows, and every row of a table with at most 500 |

## Findings

| source | as written | input that shows it | evidently intended | confidence | as-written member | corrected member |
|---|---|---|---|---|---|---|
| streamlit_app.py:77-91 | Streamlit reruns the whole script on every interaction, including the `st.rerun()` after a command. The uploader still holds the file, so each run parses it again and overwrites `df` and `original_df`. | Upload a CSV whose only column `age` has a missing entry, choose 0で補完 and apply. The rerun reloads the file and the gap is back. | Load once per upload, so a committed cleaning persists until reset or a new upload. | medium, not executed (relies on Streamlit's rerun model) | Session.RerunDiscardsCleaning | Session.RerunKeepsCleaning |

`RunAsWritten` models the upload block as written. `Run` is the corrected
block: it reloads only when the upload's identity (the file and its
encoding) differs from the one it last loaded.

## Left out

- Streamlit UI: widgets, layout, CSS, messages and tabs. The `st.rerun`
  control flow appears only through `RunAsWritten`/`Run`. The select box's
  placeholder option runs no command and is not modelled.
- CSV parsing and the encoding choice: `pd.read_csv` is a foreign call.
  Each run receives its outcome as an `Upload` (a table or an error
  message). The model assumes the parsed table is well formed: one cell per
  row in every column, and distinct headers.
- Chart rendering (heatmaps, histograms, box plots, scatter and pair plots)
  is left out. So is the axes-array reshaping when the grid has one cell.
- Floating point: `describe`, the coefficient of variation and missing
  percentages are not modelled. Correlation coefficients are inputs (None
  for NaN). The mean is exact over reals, not IEEE.
- Median and mode are inputs (`Statistics`). `Cleaning.IsModeList` states
  what pandas promises of a mode list. The tie-break among several modes is
  pandas' own.
- pandas dtype promotion: a fill never changes a column's dtype tag here.
  The model does not tie values to dtypes, for example that int64 columns
  cannot hold NaN.
- Random sampling for the pair plot: only the sample size is modelled.
- Tables.NumericNames: the contract states which names are listed and, for
  distinct headers, that none repeats, but not that they keep column order.
  The correlation module receives its column names as an input, so nothing
  in the model depends on that order.
- Cleaning.Project: a row drop renumbers the surviving rows 0 .. n-1, while
  pandas keeps their original index labels. Only the data preview and the
  missing-value heatmap show those labels, and both are UI left out above,
  so only the order of the surviving rows is modelled.
- Correlation.SortByStrength: pandas' default sort is not stable, so the
  order among equal magnitudes is unspecified. The model uses a stable
  insertion sort, and the contracts state only the ordering by magnitude
  and the permutation.
