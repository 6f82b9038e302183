/** `reorganize_data` of Splitter1.py: a row whose step cell splits into N steps becomes N rows;
    the value of the column right of the step column moves to the last of them, the other
    columns stay on the first and the last, and every other cell is the empty string. */
module Splitter1 {
  import opened Cells
  import opened Strings
  import opened CellSplit
  import opened Tables

  /** The placeholder this variant writes: the empty string `''`, not a missing value. */
  const Empty: Cell := Text("")

  /** The first step's row: `row.tolist()[:k] + [steps[0]] + [''] + row.tolist()[k + 2:]`. */
  function FirstStepRow(row: Row, k: nat, step: string): (r: Row)
    requires k + 1 < |row|
    ensures |r| == |row|
  {
    row[..k] + [Text(step), Empty] + row[k + 2..]
  }

  /** An intermediate step's row: `[''] * k + [step] + [''] * (len(row) - k - 1)`. */
  function IntermediateStepRow(width: nat, k: nat, step: string): (r: Row)
    requires k < width
    ensures |r| == width
  {
    Fill(k, Empty) + [Text(step)] + Fill(width - k - 1, Empty)
  }

  /** The last step's row: `[''] * k + [steps[-1], row[k + 1]] + row.tolist()[k + 2:]`. */
  function LastStepRow(row: Row, k: nat, step: string): (r: Row)
    requires k + 1 < |row|
    ensures |r| == |row|
  {
    Fill(k, Empty) + [Text(step), row[k + 1]] + row[k + 2..]
  }

  /** The rows of `for step in steps[1:-1]`, one per step, in order. */
  function IntermediateRows(width: nat, k: nat, steps: seq<string>): (r: seq<Row>)
    requires k < width
    ensures |r| == |steps|
    ensures forall j :: 0 <= j < |r| ==> r[j] == IntermediateStepRow(width, k, steps[j])
  {
    if steps == [] then []
    else IntermediateRows(width, k, steps[..|steps| - 1]) + [IntermediateStepRow(width, k, steps[|steps| - 1])]
  }

  /** The N rows a split row becomes: the first step's, the intermediate ones, the last step's. */
  function ExpandSteps(row: Row, k: nat, steps: seq<string>): (r: seq<Row>)
    requires k + 1 < |row| && |steps| >= 2
    ensures |r| == |steps|
  {
    [FirstStepRow(row, k, steps[0])] + IntermediateRows(|row|, k, steps[1..|steps| - 1]) +
    [LastStepRow(row, k, steps[|steps| - 1])]
  }

  /** Each expanded row is as wide as the original and holds its step in column k. */
  lemma ExpandStepsColumn(row: Row, k: nat, steps: seq<string>)
    requires k + 1 < |row| && |steps| >= 2
    ensures WidthsIn(ExpandSteps(row, k, steps), {|row|})
    ensures HasColumn(ExpandSteps(row, k, steps), k) && Column(ExpandSteps(row, k, steps), k) == Texts(steps)
  {
    var r := ExpandSteps(row, k, steps);
    var n := |steps|;
    forall j | 0 <= j < n
      ensures |r[j]| == |row| && r[j][k] == Text(steps[j])
    {
      if j == 0 {
        assert r[j] == FirstStepRow(row, k, steps[0]);
      } else if j == n - 1 {
        assert r[j] == LastStepRow(row, k, steps[n - 1]);
      } else {
        assert r[j] == IntermediateRows(|row|, k, steps[1..n - 1])[j - 1];
      }
    }
    assert Column(r, k) == Texts(steps);
  }

  /** Where every cell of the expanded rows comes from. Row j holds step j in column k. The
      first row keeps the original cells except for `''` in column k + 1; the last row has `''`
      left of column k and the original cells from column k + 1 on; the rows between are `''`
      outside column k. With two steps there is no row between. */
  lemma ExpandStepsLayout(row: Row, k: nat, steps: seq<string>)
    requires k + 1 < |row| && |steps| >= 2
    ensures |ExpandSteps(row, k, steps)| == |steps|
    ensures forall j, i :: 0 <= j < |steps| && 0 <= i < |row| ==>
      |ExpandSteps(row, k, steps)[j]| == |row| &&
      ExpandSteps(row, k, steps)[j][i] ==
        if i == k then Text(steps[j])
        else if j == 0 then (if i == k + 1 then Empty else row[i])
        else if j == |steps| - 1 then (if i < k then Empty else row[i])
        else Empty
  {
    var r := ExpandSteps(row, k, steps);
    var n := |steps|;
    forall j, i | 0 <= j < n && 0 <= i < |row|
      ensures |r[j]| == |row| &&
        r[j][i] == if i == k then Text(steps[j])
          else if j == 0 then (if i == k + 1 then Empty else row[i])
          else if j == n - 1 then (if i < k then Empty else row[i])
          else Empty
    {
      if j == 0 {
        assert r[j] == FirstStepRow(row, k, steps[0]);
      } else if j == n - 1 {
        assert r[j] == LastStepRow(row, k, steps[n - 1]);
      } else {
        assert r[j] == IntermediateRows(|row|, k, steps[1..n - 1])[j - 1];
        assert r[j] == IntermediateStepRow(|row|, k, steps[j]);
      }
    }
  }

  /** One pass of the loop body: the rows emitted for `row`, or the exception it raises. */
  function ExpandRow(row: Row, k: nat): (r: Result<seq<Row>>)
    ensures r == Err(StepColumnOutOfRange) <==> k >= |row|
    ensures r == Err(StepCellNotText) <==> k < |row| && row[k].Other?
  {
    if k >= |row| then Err(StepColumnOutOfRange)
    else
      match SplitCellIntoSteps(row[k])
      case NotText => Err(StepCellNotText)
      case NoSplit => Ok([row])
      case Steps(steps) =>
        if k + 1 >= |row| then Err(PairedColumnOutOfRange)
        else
          Ok(ExpandSteps(row, k, steps))
  }

  /** When a row raises `PairedColumnOutOfRange`, and that a row whose step cell is missing,
      whitespace only or a single line is emitted unchanged. */
  lemma ExpandRowCases(row: Row, k: nat)
    ensures ExpandRow(row, k) == Err(PairedColumnOutOfRange) <==>
      k < |row| && row[k].Text? && !AllSpace(row[k].s) && Contains(row[k].s, '\n') && k + 1 >= |row|
    ensures k < |row| && (row[k].Blank? || (row[k].Text? && (AllSpace(row[k].s) || !Contains(row[k].s, '\n')))) ==>
      ExpandRow(row, k) == Ok([row])
  {
    if k < |row| {
      SplitsIff(row[k]);
    }
  }

  /** A row is expanded into as many rows as it has steps, each as wide as itself, whose step
      column reads its steps in order (or its own cell, when it is not split). */
  lemma ExpandRowColumn(row: Row, k: nat)
    ensures ExpandRow(row, k).Ok? ==>
      |ExpandRow(row, k).value| == StepCount(row, k) && WidthsIn(ExpandRow(row, k).value, {|row|}) &&
      HasColumn(ExpandRow(row, k).value, k) && Column(ExpandRow(row, k).value, k) == StepCells(row, k)
  {
    if k < |row| {
      match SplitCellIntoSteps(row[k]) {
        case NotText =>
        case NoSplit =>
          assert ExpandRow(row, k) == Ok([row]);
          assert WidthsIn([row], {|row|});
          assert Column([row], k) == [row[k]];
        case Steps(steps) =>
          if k + 1 < |row| {
            var rows := ExpandSteps(row, k, steps);
            assert ExpandRow(row, k) == Ok(rows);
            ExpandStepsColumn(row, k, steps);
          } else {
            assert ExpandRow(row, k).Err?;
          }
      }
    }
  }

  /** Every row that completes gives one row per step, or one row when not split. */
  lemma ExpandRowCount(k: nat)
    ensures forall row :: Expander(k)(row).Ok? ==> |Expander(k)(row).value| == Counter(k)(row)
  {
    forall row | Expander(k)(row).Ok? ensures |Expander(k)(row).value| == Counter(k)(row) {
      if k < |row| && SplitCellIntoSteps(row[k]).Steps? {
        assert Expander(k)(row) == Ok(ExpandSteps(row, k, SplitCellIntoSteps(row[k]).steps));
      }
    }
  }

  function Expander(k: nat): Row -> Result<seq<Row>>
  {
    row => ExpandRow(row, k)
  }

  /** The list `new_rows` that the loop of `reorganize_data(dataframe, k)` collects from the
      rows of the data frame, or the exception a row raises. */
  function Reorganize(t: Table, k: nat): (r: Result<Table>)
    ensures t == [] ==> r == Ok([])
    ensures r.Err? ==> exists i :: 0 <= i < |t| && ExpandRow(t[i], k) == Err(r.error)
  {
    ReorganizeWith(t, Expander(k))
  }

  /** `reorganize_data(dataframe, k)` for a data frame with `w` columns: the rows collected,
      made into a data frame with the original column labels. */
  function ReorganizeFrame(t: Table, k: nat, w: nat): (r: Result<Table>)
    ensures r.Ok? ==> Rectangular(r.value, w)
  {
    match Reorganize(t, k)
    case Err(e) => Err(e)
    case Ok(rows) => Frame(rows, w)
  }

  /** The inner loop `for step in steps[1:-1]`: one row per intermediate step, appended in order. */
  method AppendIntermediateRows(newRows: Table, width: nat, k: nat, steps: seq<string>) returns (r: Table)
    requires k < width
    ensures r == newRows + IntermediateRows(width, k, steps)
  {
    r := newRows;
    var j := 0;
    while j < |steps|
      invariant j <= |steps|
      invariant r == newRows + IntermediateRows(width, k, steps[..j])
    {
      assert steps[..j + 1][..j] == steps[..j];
      r := r + [IntermediateStepRow(width, k, steps[j])];
      j := j + 1;
    }
    assert steps[..j] == steps;
  }

  /** One pass of the loop body: the rows that `row` appends to `new_rows`, or the exception. */
  method EmitRows(row: Row, k: nat) returns (r: Result<seq<Row>>)
    ensures r == ExpandRow(row, k)
  {
    if k >= |row| {
      return Err(StepColumnOutOfRange);
    }
    match SplitCellIntoSteps(row[k]) {
      case NotText =>
        return Err(StepCellNotText);
      case NoSplit =>
        return Ok([row]);
      case Steps(steps) =>
        // `row[step_column_index + 1]` raises; the rows already appended are lost with it.
        if k + 1 >= |row| {
          return Err(PairedColumnOutOfRange);
        }
        var rows := [FirstStepRow(row, k, steps[0])];
        rows := AppendIntermediateRows(rows, |row|, k, steps[1..|steps| - 1]);
        rows := rows + [LastStepRow(row, k, steps[|steps| - 1])];
        assert ExpandRow(row, k) == Ok(rows);
        return Ok(rows);
    }
  }

  /** The source's loop over the rows, appending each row's expansion to `new_rows`, then the
      data frame built from `new_rows` with the `w` original column labels. */
  method ReorganizeData(table: Table, k: nat, w: nat) returns (r: Result<Table>)
    ensures r == ReorganizeFrame(table, k, w)
  {
    var newRows: Table := [];
    var i := 0;
    while i < |table|
      invariant i <= |table|
      invariant Reorganize(table[..i], k) == Ok(newRows)
    {
      var emitted := EmitRows(table[i], k);
      match emitted {
        case Err(e) =>
          ExtendErr(table, Expander(k), i, e);
          return Err(e);
        case Ok(rows) =>
          ExtendOk(table, Expander(k), i, newRows);
          newRows := newRows + rows;
      }
      i := i + 1;
    }
    assert table[..i] == table;
    return Frame(newRows, w);
  }

  /** The output has one row per step of each row (one for a row that is not split), and the
      rows emitted for row i, `ExpandRow(t[i], k)`, stand together, in input order, after the
      `StepTotal(t[..i], k)` rows of the rows before it. */
  lemma RowsContiguous(t: Table, k: nat)
    ensures Reorganize(t, k).Ok? ==> |Reorganize(t, k).value| == StepTotal(t, k)
    ensures Reorganize(t, k).Ok? ==> forall i :: 0 <= i < |t| ==>
      PlacedAt(t, Expander(k), Counter(k), Reorganize(t, k).value, i)
  {
    ExpandRowCount(k);
    Contiguous(t, Expander(k), Counter(k));
  }

  /** Reading the step column of the output top to bottom gives each row's steps (or its own
      step cell, when it is not split), row after row in input order. */
  lemma StepColumnInOrder(t: Table, k: nat)
    ensures Reorganize(t, k).Ok? ==>
      HasColumn(Reorganize(t, k).value, k) && Column(Reorganize(t, k).value, k) == ConcatMap(t, StepCellsOf(k))
  {
    forall row | Expander(k)(row).Ok?
      ensures HasColumn(Expander(k)(row).value, k) && Column(Expander(k)(row).value, k) == StepCellsOf(k)(row)
    {
      ExpandRowColumn(row, k);
    }
    ColumnOf(t, Expander(k), k, StepCellsOf(k));
  }

  /** Every emitted row is as wide as the table. */
  lemma WidthPreserved(t: Table, k: nat, w: nat)
    ensures Rectangular(t, w) && Reorganize(t, k).Ok? ==> Rectangular(Reorganize(t, k).value, w)
  {
    forall row | |row| in {w} && Expander(k)(row).Ok? ensures WidthsIn(Expander(k)(row).value, {w}) {
      ExpandRowColumn(row, k);
    }
    Widths(t, Expander(k), {w});
    assert Rectangular(t, w) ==> WidthsIn(t, {w});
  }

  /** For a data frame w columns wide the frame construction never raises: every collected row
      is w wide, so the result is exactly `new_rows`. */
  lemma FrameKeepsRows(t: Table, k: nat, w: nat)
    requires Rectangular(t, w)
    ensures ReorganizeFrame(t, k, w) == Reorganize(t, k)
  {
    WidthPreserved(t, k, w);
    if Reorganize(t, k).Ok? {
      FrameOfRectangular(Reorganize(t, k).value, w);
    }
  }

  /** A table none of whose step cells is split comes back unchanged. */
  lemma NoSplitIdentity(t: Table, k: nat)
    requires forall i :: 0 <= i < |t| ==> k < |t[i]| && SplitCellIntoSteps(t[i][k]) == NoSplit
    ensures Reorganize(t, k) == Ok(t)
  {
    Identity(t, Expander(k));
  }

  /** The call raises exactly the exception of the first row that raises one. */
  lemma FailsAtFirstBadRow(t: Table, k: nat, x: Error)
    ensures Reorganize(t, k) == Err(x) <==>
      exists i :: 0 <= i < |t| && ExpandRow(t[i], k) == Err(x) && forall j :: 0 <= j < i ==> ExpandRow(t[j], k).Ok?
  {
    ErrIffFirst(t, Expander(k), x);
  }

  /** A step column index past the last column raises on the first row; a table with no rows
      is returned empty whatever the index. */
  lemma IndexOutOfRange(t: Table, k: nat, w: nat)
    requires Rectangular(t, w) && k >= w
    ensures t != [] ==> Reorganize(t, k) == Err(StepColumnOutOfRange)
    ensures t == [] ==> Reorganize(t, k) == Ok([])
  {
    if t != [] {
      assert t[..0] == [];
      ExtendErr(t, Expander(k), 0, StepColumnOutOfRange);
    }
  }

  /** Joining, with newlines, the step-column texts of the rows emitted for a text step cell
      gives the original cell text back. */
  lemma StepsRejoin(row: Row, k: nat)
    requires k < |row| && row[k].Text? && ExpandRow(row, k).Ok?
    ensures HasColumn(ExpandRow(row, k).value, k)
    ensures Join(TextsOf(Column(ExpandRow(row, k).value, k)), '\n') == row[k].s
  {
    ExpandRowColumn(row, k);
    match SplitCellIntoSteps(row[k]) {
      case Steps(steps) =>
        assert TextsOf(Texts(steps)) == steps;
      case NoSplit =>
        assert TextsOf([row[k]]) == [row[k].s];
    }
  }
}
