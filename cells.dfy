/** Cell values, rows and tables as the reorganisation sees them, and the ways it can fail. */
module Cells {

  /** A spreadsheet cell: missing (what pandas reports as NaN or None), text, or any other
      value, such as a number or a date, that the reorganisation only carries along. */
  datatype Cell = Blank | Text(s: string) | Other(v: int)

  /** A row is its cell values by column position; a table is its rows in order. */
  type Row = seq<Cell>
  type Table = seq<Row>

  /** Why a call of `reorganize_data` raises instead of returning a table. */
  datatype Error =
    | StepColumnOutOfRange    // `row[step_column_index]` names no position of the row
    | StepCellNotText         // `.strip()` called on a step cell that is neither missing nor text
    | PairedColumnOutOfRange  // `row[step_column_index + 1]` names no position of the row
    | ColumnCountMismatch     // `pd.DataFrame(new_rows, columns=...)`: the widest row is not as wide as the header

  datatype Result<T> = Ok(value: T) | Err(error: Error)

  /** `[c] * n`: n copies of the placeholder c. */
  function Fill(n: nat, c: Cell): (r: Row)
    ensures |r| == n && forall i :: 0 <= i < n ==> r[i] == c
  {
    seq(n, _ => c)
  }

  /** Every row has exactly `w` cells, as every row of a data frame with `w` columns does. */
  predicate Rectangular(t: Table, w: nat)
  {
    forall i :: 0 <= i < |t| ==> |t[i]| == w
  }
}
