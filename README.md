# Splitter: splitting multi-line step cells into rows

Splitter reads a spreadsheet of test cases where one column holds a test's steps as a single
multi-line text cell. It writes a sheet with one row per step. This project models the two
versions of the function that does this:

- `Splitter1.py` (module `Splitter1`). The row of the first step keeps the original cells,
  with an empty string in the column right of the step column. The rows between are empty
  strings apart from their step. The row of the last step carries the value of the column
  right of the step column, plus every later column.
- `Notebook/Notebook.py` (module `Notebook`). The row of the first step keeps the cells left
  of the step column and ends at the step. Every later step's row is a missing value in each
  column left of the step column, followed by its step.

Both versions share the cell splitter `split_cell_into_steps` (module `CellSplit`). It splits a
text cell on `'\n'` when the cell is not blank and holds at least two lines.

Modules:

- `Cells`: the data model. A cell is either missing (`Blank`, pandas' `None`/`NaN`), text, or
  some other value (`Other`, such as a number). Rows are sequences of cells and tables are
  sequences of rows.
  - The exceptions a call can raise are the `Error` values, carried in a `Result`:
    - `StepColumnOutOfRange`: `row[k]` is past the end of the row;
    - `StepCellNotText`: `.strip()` is called on a number;
    - `PairedColumnOutOfRange`: `row[k + 1]` is past the end of the row, in `Splitter1.py` only;
    - `ColumnCountMismatch`: `pd.DataFrame(new_rows, columns=dataframe.columns)` refuses rows
      whose widest one is not as wide as the column labels are many.
- `Strings`: Python's `str.isspace`, `str.strip`, `str.split` with a one-character separator,
  and `str.join`. Whitespace is Python's, by code point.
- `Tables`: the outer loop `for index, row in dataframe.iterrows()`, as a fold over the rows
  that takes the per-row expansion as a parameter. It carries lemmas that both versions
  instantiate:
  - the first exception wins;
  - each row's output rows stay together and in order;
  - the step column of the output is the concatenation of the rows' step cells;
  - widths are preserved;
  - a table with nothing to split comes back unchanged.

  It also models the construction `pd.DataFrame(new_rows, columns=...)` as `Frame`. A list
  with no rows gives an empty frame. Otherwise the rows are filled up with missing values to
  the widest of them, and that width must equal the number of column labels.
- `Splitter1` and `Notebook`: each has the per-row expansion `ExpandRow` (a function) and the
  imperative loops that build it. These are `EmitRows`, with the inner `for step in ...` loop
  in `AppendIntermediateRows` / `AppendPaddedRows`, and `ReorganizeData` for the outer loop.
  Each method is proved equal to the function. The table-level properties are lemmas about
  the function.

The step column index `k` is a natural number, and `w` is the number of columns of the data
frame. `Reorganize(t, k)` is the list `new_rows` the loop collects, or the exception a row
raises. `ReorganizeFrame(t, k, w)` is the whole call, frame construction included.

## Model

| member | source | states |
|---|---|---|
| Strings.IsSpace | Splitter1.py:24 | Python's `str.isspace` by code point: space, tab, newline and carriage return are whitespace; digits and ASCII letters are not |
| Strings.Strip | Splitter1.py:24 | `cell_content.strip()` is empty exactly when every character is whitespace; otherwise it neither starts nor ends with whitespace |
| Strings.StripLeading | Splitter1.py:24 | removing leading whitespace leaves a suffix that does not start with whitespace, and everything removed is whitespace |
| Strings.StripTrailing | Splitter1.py:24 | removing trailing whitespace leaves a prefix that does not end with whitespace, and everything removed is whitespace |
| Strings.Split | Splitter1.py:27 | `split('\n')` gives at least one piece, no piece contains the separator, and joining the pieces with the separator gives the input back |
| Strings.SplitManyIff | Splitter1.py:27-28 | `len(steps) > 1` holds exactly when the text contains a newline |
| Strings.SplitWithoutSeparator | Splitter1.py:27 | text without the separator splits into itself alone |
| Strings.SplitAfterPiece | Splitter1.py:27 | splitting `piece + sep + rest`, where `piece` has no separator, gives `piece` followed by the split of `rest` |
| Strings.SplitJoin | Splitter1.py:27 | splitting the join of separator-free pieces gives back exactly those pieces (split inverts join) |
| CellSplit.SplitCellIntoSteps | Splitter1.py:18-31 | a number is the only cell that raises. When steps are returned, the cell was text, there are at least two steps, no step contains a newline, and the steps joined by newlines are the cell |
| CellSplit.SplitsIff | Splitter1.py:24-31 | steps are returned exactly when the cell is text, not all whitespace, and contains a newline |
| CellSplit.StepsUnique | Splitter1.py:27-29 | for a non-blank text cell, any decomposition into two or more newline-free pieces that join to the cell is the one returned |
| CellSplit.ThreeStepsExample | Notebook/Notebook.py:18-31 | `"a\nb\nc"` gives the steps `a`, `b`, `c` |
| CellSplit.TwoStepsExample | Notebook/Notebook.py:18-31 | `"a\nb"` gives the steps `a`, `b` |
| CellSplit.ScenarioSteps | Splitter1.py:27-29 | `"s1\ns2\ns3"` gives the steps `s1`, `s2`, `s3` |
| CellSplit.TrailingNewlineExample | Splitter1.py:27-29 | a trailing newline gives a last step that is empty: `"a\n"` gives `a` and the empty string |
| CellSplit.NoSplitExamples | Splitter1.py:24-31 | the empty string, blanks, a lone newline, single-line text and a missing value give no steps; a number raises |
| Cells.Fill | Splitter1.py:58 | `[''] * n` (and `[None] * n` at Notebook/Notebook.py:53) is n copies of the placeholder |
| Tables.ReorganizeWith | Splitter1.py:47-66 | the loop `for index, row in dataframe.iterrows()` appending each row's rows to `new_rows`: no rows give an empty list, and an exception is always some row's |
| Tables.MaxWidth | Splitter1.py:69 | the width of the widest row: no row is wider, and some row is that wide |
| Tables.MaxWidthIs | Splitter1.py:69 | when no row is wider than w and some row is w wide, the widest row is w wide |
| Tables.Pad | Notebook/Notebook.py:61 | pandas' filling of a short row: the row followed by missing values up to w cells |
| Tables.Frame | Notebook/Notebook.py:61 | `pd.DataFrame(new_rows, columns=...)` with w labels raises exactly when there are rows and the widest is not w wide; otherwise it gives w-wide rows, each collected row filled up with missing values |
| Tables.FrameOfRectangular | Splitter1.py:69 | rows that are all w wide make a frame of exactly those rows |
| Tables.WidthsOfRows | Splitter1.py:47-66 | widths that every row of the table expands into are the widths of the output |
| Tables.PassedRowKept | Splitter1.py:64-66 | a row appended as it is stands among the output rows |
| Tables.OkIff | Splitter1.py:47-66 | the loop over the rows completes exactly when no row raises |
| Tables.ErrIffFirst | Splitter1.py:47-66 | the loop raises an exception exactly when some row raises it and every row before that one completes |
| Tables.ErrorPersists | Splitter1.py:47-66 | an exception raised on a prefix of the rows is the exception of the whole call |
| Tables.ExtendOk | Splitter1.py:47-66 | processing one more row appends its rows to `new_rows` |
| Tables.ExtendErr | Splitter1.py:47-66 | a row that raises after a prefix that completed makes the whole call raise that exception |
| Tables.PlacedAfterAppend | Splitter1.py:47-66 | appending rows at the end leaves where earlier rows' output was placed unchanged |
| Tables.Contiguous | Splitter1.py:47-66 | when each row's expansion has a known count of rows, the output has the sum of those counts; each row's expansion stands contiguously at the offset given by the rows before it |
| Tables.Identity | Splitter1.py:64-66 | when every row is appended as it is, the output equals the input |
| Tables.Widths | Splitter1.py:47-69 | widths drawn from a set stay in that set when every row's expansion keeps them there |
| Tables.ColumnAppend | Splitter1.py:47-66 | the column of two row blocks placed one after the other is the two columns concatenated |
| Tables.ColumnOf | Splitter1.py:47-66 | the output's column k is the concatenation, in row order, of each row's contribution to it |
| Splitter1.FirstStepRow | Splitter1.py:53 | the first step's row is as wide as the original |
| Splitter1.IntermediateStepRow | Splitter1.py:58 | an intermediate row is as wide as the original |
| Splitter1.LastStepRow | Splitter1.py:62 | the last step's row is as wide as the original |
| Splitter1.IntermediateRows | Splitter1.py:57-59 | `for step in steps[1:-1]` produces one intermediate row per step, the j-th for step j |
| Splitter1.ExpandSteps | Splitter1.py:50-63 | a split row becomes one row per step |
| Splitter1.ExpandStepsColumn | Splitter1.py:53-62 | each of those rows is as wide as the original, and their step column reads the steps in order |
| Splitter1.ExpandStepsLayout | Splitter1.py:51-63 | every cell of each step row: step j in column k. The first row is the original with `''` right of the step column. The last row is `''` left of column k and the original from column k + 1 on. The rows between are `''` outside column k |
| Splitter1.ExpandRow | Splitter1.py:49-66 | a row raises the index error exactly when k is past its end, and raises on `.strip()` exactly when its step cell is a number |
| Splitter1.ExpandRowCases | Splitter1.py:49-66 | `row[k + 1]` raises exactly when a splitting step cell is in the last column. A missing, blank or single-line step cell leaves the row as it is |
| Splitter1.ExpandRowColumn | Splitter1.py:49-66 | a row that completes gives as many rows as it has steps (one when not split). They are as wide as it, and their step column reads its steps, or the cell itself when not split |
| Splitter1.AppendIntermediateRows | Splitter1.py:57-59 | the inner loop appends exactly the intermediate rows, in order, to `new_rows` |
| Splitter1.EmitRows | Splitter1.py:49-66 | the loop body appends exactly the expansion of the row, or raises its exception |
| Splitter1.Reorganize | Splitter1.py:47-66 | the rows collected in `new_rows`: none for no rows, and an exception is always the `ExpandRow` exception of some row |
| Splitter1.ReorganizeFrame | Splitter1.py:34-70 | `reorganize_data(dataframe, k)`: the collected rows made into a frame; a frame it returns is w wide |
| Splitter1.ReorganizeData | Splitter1.py:34-70 | the loop, then the frame construction, yields exactly `ReorganizeFrame`: the fold of the expansion over the rows, stopping at the first exception, made into a frame |
| Splitter1.FrameKeepsRows | Splitter1.py:69 | for a data frame w columns wide the frame construction never raises and returns exactly the collected rows |
| Splitter1.RowsContiguous | Splitter1.py:47-66 | the output has one row per step of each input row (one for an unsplit row). Row i's expansion `ExpandRow(t[i], k)` stands, unchanged and contiguous, right after the `StepTotal(t[..i], k)` rows of the rows before it (`PlacedAt` with `Expander(k)` and `Counter(k)`) |
| Splitter1.ExpandRowCount | Splitter1.py:49-66 | every row that completes gives one row per step, or one row when not split |
| Splitter1.StepColumnInOrder | Splitter1.py:47-66 | reading the output's step column top to bottom gives every row's steps, or its cell, in input order |
| Splitter1.WidthPreserved | Splitter1.py:47-69 | a table of uniform width w gives rows that are all w wide, matching `columns=dataframe.columns` |
| Splitter1.NoSplitIdentity | Splitter1.py:64-66 | a table none of whose step cells splits is returned unchanged |
| Splitter1.FailsAtFirstBadRow | Splitter1.py:47-66 | the loop raises exactly the exception of the first row that raises (and by `FrameKeepsRows` so does the call, for a data frame w wide) |
| Splitter1.IndexOutOfRange | Splitter1.py:49 | in a uniform table, a step column past the last column raises the index error on the first row; a table with no rows gives no rows |
| Splitter1.StepsRejoin | Splitter1.py:49-63 | joining with newlines the step texts emitted for a text cell gives back the original cell |
| Notebook.FirstStepRow | Notebook/Notebook.py:48 | the first step's row ends at the step column: it is k + 1 wide |
| Notebook.PaddedStepRow | Notebook/Notebook.py:53-54 | a later step's row is k + 1 wide |
| Notebook.PaddedRows | Notebook/Notebook.py:52-55 | `for step in steps[1:]` produces one row per step, the j-th for step j |
| Notebook.ExpandSteps | Notebook/Notebook.py:46-55 | a split row becomes one row per step |
| Notebook.ExpandStepsColumn | Notebook/Notebook.py:48-55 | each of those rows is k + 1 wide, and their step column reads the steps in order |
| Notebook.ExpandStepsLayout | Notebook/Notebook.py:46-55 | every cell of each step row: step j in column k and nothing right of it. The first row keeps the original cells left of k; later rows are `None` there |
| Notebook.ExpandRow | Notebook/Notebook.py:45-58 | a row raises the index error exactly when k is past its end, and raises on `.strip()` exactly when its step cell is a number |
| Notebook.ExpandRowCases | Notebook/Notebook.py:45-58 | a row completes exactly when it has the step column and its step cell is not a number; a missing, blank or single-line step cell leaves the row as it is |
| Notebook.ExpandRowColumn | Notebook/Notebook.py:45-58 | a row that completes gives as many rows as it has steps, whose step column reads its steps, or the cell itself when not split |
| Notebook.ExpandRowCount | Notebook/Notebook.py:45-58 | every row that completes gives one row per step, or one row when not split |
| Notebook.ExpandRowWidths | Notebook/Notebook.py:45-58 | an unsplit row keeps its width; a split row's rows are k + 1 wide |
| Notebook.AppendPaddedRows | Notebook/Notebook.py:52-55 | the inner loop appends exactly the later steps' rows, in order, to `new_rows` |
| Notebook.EmitRows | Notebook/Notebook.py:45-58 | the loop body appends exactly the expansion of the row, or raises its exception |
| Notebook.Reorganize | Notebook/Notebook.py:43-58 | the rows collected in `new_rows`: none for no rows, and an exception is always the `ExpandRow` exception of some row |
| Notebook.ReorganizeFrame | Notebook/Notebook.py:34-62 | `reorganize_data(dataframe, k)`: the collected rows made into a frame; a frame it returns is w wide |
| Notebook.ReorganizeData | Notebook/Notebook.py:34-62 | the loop, then the frame construction at line 61, yields exactly `ReorganizeFrame`: the fold of the expansion over the rows, stopping at the first exception, made into a frame, which may raise `ColumnCountMismatch` |
| Notebook.RowsContiguous | Notebook/Notebook.py:44-58 | the output has one row per step of each input row (one for an unsplit row). Row i's expansion `ExpandRow(t[i], k)` stands, unchanged and contiguous, right after the `StepTotal(t[..i], k)` rows of the rows before it (`PlacedAt` with `Expander(k)` and `Counter(k)`) |
| Notebook.StepColumnInOrder | Notebook/Notebook.py:44-58 | reading the output's step column top to bottom gives every row's steps, or its cell, in input order |
| Notebook.RowWidths | Notebook/Notebook.py:44-61 | a table of uniform width w gives rows that are w wide (unsplit rows) or k + 1 wide (step rows) |
| Notebook.NoSplitIdentity | Notebook/Notebook.py:56-58 | a table none of whose step cells splits is returned unchanged |
| Notebook.FailsAtFirstBadRow | Notebook/Notebook.py:44-61 | the loop raises exactly the exception of the first row that raises; any other exception than `ColumnCountMismatch` is raised by the call exactly when the loop raises it |
| Notebook.CollectsIff | Notebook/Notebook.py:44-58 | the loop completes exactly when every row has the step column and no step cell is a number |
| Notebook.ExpandRowNonEmpty | Notebook/Notebook.py:45-58 | no row that completes gives no rows |
| Notebook.RowsNoWider | Notebook/Notebook.py:44-58 | no collected row is wider than the data frame |
| Notebook.UnsplitRowKept | Notebook/Notebook.py:56-58 | a row that is not split stands unchanged among the collected rows |
| Notebook.AllSplitMismatch | Notebook/Notebook.py:44-61 | as written: when the table has rows, every row splits and the step column is not the last, every collected row is k + 1 < w wide, so line 61 raises `ColumnCountMismatch` |
| Notebook.FullRowFrames | Notebook/Notebook.py:44-61 | when the table is empty, the step column is the last, or some row is not split, the frame is built |
| Notebook.SucceedsIff | Notebook/Notebook.py:44-61 | the call, frame included, completes exactly when every row has the step column, no step cell is a number, and the table is empty, the step column is the last, or some row is not split |
| Notebook.PaddedFrame | Notebook/Notebook.py:61 | corrected frame construction: completes exactly when no row is wider than w, and fills every row up to w cells with missing values |
| Notebook.ReorganizeIntended | Notebook/Notebook.py:34-62 | corrected `reorganize_data`: a frame it returns is w wide |
| Notebook.IntendedSucceedsIff | Notebook/Notebook.py:44-61 | with the corrected frame the call completes exactly when every row has the step column and no step cell is a number, and the frame is the collected rows, each filled up to w cells |
| Notebook.IndexOutOfRange | Notebook/Notebook.py:45 | in a uniform table, a step column past the last column raises the index error on the first row; a table with no rows gives no rows |
| Notebook.StepsRejoin | Notebook/Notebook.py:45-55 | joining with newlines the step texts emitted for a text cell gives back the original cell |

## Left out

- `read_excel_file` and `write_to_excel` are file I/O through pandas. They are not modelled; the
  model starts from the table's rows and ends with the list of new rows.
- The `__main__` blocks (console input, `int(...)` of the column index, fixed paths) are not
  modelled. Neither is the call `reorganize_data(data)` without a column index at
  Notebook/Notebook.py:90, which raises a `TypeError` before any row is read.
- `pd.DataFrame(new_rows, columns=dataframe.columns)` is modelled by its shape alone (`Frame`):
  the number of column labels, w, and the rows. The labels themselves, the index and the
  column dtypes are not modelled. A short row's filler is `Blank`, whether pandas stores it
  as `None` or as `NaN`.
- Negative column indices (Python counts them from the end) are not modelled: `k` is a
  natural number.
- Cell values other than text and missing values are one opaque kind (`Other`). The only
  thing the code does with them is call `.strip()`, which raises. A missing value covers both
  `None` and `NaN` (`pd.isna`).
- A table with no rows returns no rows for every column index, because the code checks the
  index only when it reads a row.
- In `Splitter1.py` the first step's row and the intermediate rows are appended before
  `row[k + 1]` raises. The model raises without building any rows, because the exception
  discards `new_rows` either way.
- There is no worked example of a whole table through `reorganize_data`. The cell-level
  examples, the cell-by-cell layout lemmas (`Splitter1.ExpandStepsLayout`,
  `Notebook.ExpandStepsLayout`) and the all-inputs lemma `Notebook.AllSplitMismatch` take its
  place.

## Findings

| source | as written | input that shows it | evidently intended | confidence | as-written member | corrected member |
|---|---|---|---|---|---|---|
| Notebook/Notebook.py:48-61 | every row that splits is cut short after the step column, so when every row splits and the step column is not the last, no collected row is as wide as the header, and `pd.DataFrame(new_rows, columns=dataframe.columns)` raises `ValueError` | the one-row, four-column table `X`, `Y`, `"a\nb"`, `Z` with step column 2: `new_rows` is `[X, Y, a]`, `[None, None, b]`, three columns for four labels | the short rows filled up with missing values to the width of the table, as pandas does whenever some row is full width | medium, not executed | Notebook.AllSplitMismatch | Notebook.IntendedSucceedsIff |
