/** `reorganize_data` of Notebook/Notebook.py: a row whose step cell splits into N steps becomes
    N rows. The first keeps the cells left of the step column and the first step, and ends
    there; each further row is a missing value in every column left of the step column,
    followed by its step. */
module Notebook {
  import opened Cells
  import opened Strings
  import opened CellSplit
  import opened Tables

  /** The first step's row: `row.tolist()[:k] + [steps[0]]`. */
  function FirstStepRow(row: Row, k: nat, step: string): (r: Row)
    requires k < |row|
    ensures |r| == k + 1
  {
    row[..k] + [Text(step)]
  }

  /** A further step's row: `[None] * k + [step]`. */
  function PaddedStepRow(k: nat, step: string): (r: Row)
    ensures |r| == k + 1
  {
    Fill(k, Blank) + [Text(step)]
  }

  /** The rows of `for step in steps[1:]`, one per step, in order. */
  function PaddedRows(k: nat, steps: seq<string>): (r: seq<Row>)
    ensures |r| == |steps|
    ensures forall j :: 0 <= j < |r| ==> r[j] == PaddedStepRow(k, steps[j])
  {
    if steps == [] then []
    else PaddedRows(k, steps[..|steps| - 1]) + [PaddedStepRow(k, steps[|steps| - 1])]
  }

  /** The N rows a split row becomes: the first step's, then one per further step. */
  function ExpandSteps(row: Row, k: nat, steps: seq<string>): (r: seq<Row>)
    requires k < |row| && |steps| >= 1
    ensures |r| == |steps|
  {
    [FirstStepRow(row, k, steps[0])] + PaddedRows(k, steps[1..])
  }

  /** Each expanded row is k + 1 cells wide and holds its step in column k. */
  lemma ExpandStepsColumn(row: Row, k: nat, steps: seq<string>)
    requires k < |row| && |steps| >= 1
    ensures WidthsIn(ExpandSteps(row, k, steps), {k + 1})
    ensures HasColumn(ExpandSteps(row, k, steps), k) && Column(ExpandSteps(row, k, steps), k) == Texts(steps)
  {
    var r := ExpandSteps(row, k, steps);
    forall j | 0 <= j < |steps|
      ensures |r[j]| == k + 1 && r[j][k] == Text(steps[j])
    {
      if j == 0 {
        assert r[j] == FirstStepRow(row, k, steps[0]);
      } else {
        assert r[j] == PaddedRows(k, steps[1..])[j - 1];
      }
    }
    assert Column(r, k) == Texts(steps);
  }

  /** Where every cell of the expanded rows comes from. Row j holds step j in column k and
      nothing right of it, so the cells of the original row right of the step column are
      dropped. The first row keeps the original cells left of column k; the others have a
      missing value there. */
  lemma ExpandStepsLayout(row: Row, k: nat, steps: seq<string>)
    requires k < |row| && |steps| >= 1
    ensures |ExpandSteps(row, k, steps)| == |steps|
    ensures forall j, i :: 0 <= j < |steps| && 0 <= i <= k ==>
      |ExpandSteps(row, k, steps)[j]| == k + 1 &&
      ExpandSteps(row, k, steps)[j][i] ==
        if i == k then Text(steps[j])
        else if j == 0 then row[i]
        else Blank
  {
    var r := ExpandSteps(row, k, steps);
    forall j, i | 0 <= j < |steps| && 0 <= i <= k
      ensures |r[j]| == k + 1 &&
        r[j][i] == if i == k then Text(steps[j]) else if j == 0 then row[i] else Blank
    {
      if j == 0 {
        assert r[j] == FirstStepRow(row, k, steps[0]);
      } else {
        assert r[j] == PaddedRows(k, steps[1..])[j - 1];
        assert r[j] == PaddedStepRow(k, steps[j]);
      }
    }
  }

  /** One pass of the loop body: the rows emitted for `row`, or the exception it raises. */
  function ExpandRow(row: Row, k: nat): (r: Result<seq<Row>>)
    ensures r == Err(StepColumnOutOfRange) <==> k >= |row|
    ensures r == Err(StepCellNotText) <==> k < |row| && row[k].Other?
  {
    if k >= |row| then Err(StepColumnOutOfRange)
    else
      match SplitCellIntoSteps(row[k])
      case NotText => Err(StepCellNotText)
      case NoSplit => Ok([row])
      case Steps(steps) => Ok(ExpandSteps(row, k, steps))
  }

  /** Only the two exceptions above can occur, so a row is emitted exactly when its step cell
      exists and is not a number; a row whose step cell is missing, whitespace only or a single
      line is emitted unchanged. */
  lemma ExpandRowCases(row: Row, k: nat)
    ensures ExpandRow(row, k).Ok? <==> k < |row| && !row[k].Other?
    ensures k < |row| && (row[k].Blank? || (row[k].Text? && (AllSpace(row[k].s) || !Contains(row[k].s, '\n')))) ==>
      ExpandRow(row, k) == Ok([row])
  {
    if k < |row| {
      SplitsIff(row[k]);
      match SplitCellIntoSteps(row[k]) {
        case NotText =>
        case NoSplit =>
        case Steps(steps) =>
          assert ExpandRow(row, k).Ok?;
      }
    }
  }

  /** A row is expanded into as many rows as it has steps, whose step column reads its steps in
      order (or its own cell, when it is not split). */
  lemma ExpandRowColumn(row: Row, k: nat)
    ensures ExpandRow(row, k).Ok? ==>
      |ExpandRow(row, k).value| == StepCount(row, k) &&
      HasColumn(ExpandRow(row, k).value, k) && Column(ExpandRow(row, k).value, k) == StepCells(row, k)
  {
    if k < |row| {
      match SplitCellIntoSteps(row[k]) {
        case NotText =>
        case NoSplit =>
          assert ExpandRow(row, k) == Ok([row]);
          assert Column([row], k) == [row[k]];
        case Steps(steps) =>
          var rows := ExpandSteps(row, k, steps);
          assert ExpandRow(row, k) == Ok(rows);
          ExpandStepsColumn(row, k, steps);
      }
    }
  }

  /** A row is expanded into as many rows as it has steps, one when it is not split. */
  lemma ExpandRowCount(k: nat)
    ensures forall row :: Expander(k)(row).Ok? ==> |Expander(k)(row).value| == Counter(k)(row)
  {
    forall row | Expander(k)(row).Ok? ensures |Expander(k)(row).value| == Counter(k)(row) {
      if k < |row| && SplitCellIntoSteps(row[k]).Steps? {
        assert Expander(k)(row) == Ok(ExpandSteps(row, k, SplitCellIntoSteps(row[k]).steps));
      }
    }
  }

  /** A split row's rows are k + 1 wide; an unsplit row keeps its width. */
  lemma ExpandRowWidths(row: Row, k: nat)
    ensures ExpandRow(row, k).Ok? ==>
      WidthsIn(ExpandRow(row, k).value, if StepCount(row, k) == 1 then {|row|} else {k + 1})
  {
    if k < |row| {
      match SplitCellIntoSteps(row[k]) {
        case NotText =>
        case NoSplit =>
          assert ExpandRow(row, k) == Ok([row]);
          assert WidthsIn([row], {|row|});
        case Steps(steps) =>
          var rows := ExpandSteps(row, k, steps);
          assert ExpandRow(row, k) == Ok(rows);
          ExpandStepsColumn(row, k, steps);
      }
    }
  }

  function Expander(k: nat): Row -> Result<seq<Row>>
  {
    row => ExpandRow(row, k)
  }

  /** The list `new_rows` that the loop of `reorganize_data(dataframe, k)` collects from the
      rows of the data frame, or the exception a row raises. */
  function Reorganize(t: Table, k: nat): (r: Result<Table>)
    ensures t == [] ==> r == Ok([])
    ensures r.Err? ==> exists i :: 0 <= i < |t| && ExpandRow(t[i], k) == Err(r.error)
  {
    ReorganizeWith(t, Expander(k))
  }

  /** `reorganize_data(dataframe, k)` for a data frame with `w` columns: the rows collected,
      made into a data frame with the original column labels. */
  function ReorganizeFrame(t: Table, k: nat, w: nat): (r: Result<Table>)
    ensures r.Ok? ==> Rectangular(r.value, w)
  {
    match Reorganize(t, k)
    case Err(e) => Err(e)
    case Ok(rows) => Frame(rows, w)
  }

  /** The inner loop `for step in steps[1:]`: one row per further step, appended in order. */
  method AppendPaddedRows(newRows: Table, k: nat, steps: seq<string>) returns (r: Table)
    ensures r == newRows + PaddedRows(k, steps)
  {
    r := newRows;
    var j := 0;
    while j < |steps|
      invariant j <= |steps|
      invariant r == newRows + PaddedRows(k, steps[..j])
    {
      assert steps[..j + 1][..j] == steps[..j];
      r := r + [PaddedStepRow(k, steps[j])];
      j := j + 1;
    }
    assert steps[..j] == steps;
  }

  /** One pass of the loop body: the rows that `row` appends to `new_rows`, or the exception. */
  method EmitRows(row: Row, k: nat) returns (r: Result<seq<Row>>)
    ensures r == ExpandRow(row, k)
  {
    if k >= |row| {
      return Err(StepColumnOutOfRange);
    }
    match SplitCellIntoSteps(row[k]) {
      case NotText =>
        return Err(StepCellNotText);
      case NoSplit =>
        return Ok([row]);
      case Steps(steps) =>
        var rows := [FirstStepRow(row, k, steps[0])];
        rows := AppendPaddedRows(rows, k, steps[1..]);
        assert ExpandRow(row, k) == Ok(rows);
        return Ok(rows);
    }
  }

  /** The source's loop over the rows, appending each row's expansion to `new_rows`, then the
      data frame built from `new_rows` with the `w` original column labels. */
  method ReorganizeData(table: Table, k: nat, w: nat) returns (r: Result<Table>)
    ensures r == ReorganizeFrame(table, k, w)
  {
    var newRows: Table := [];
    var i := 0;
    while i < |table|
      invariant i <= |table|
      invariant Reorganize(table[..i], k) == Ok(newRows)
    {
      var emitted := EmitRows(table[i], k);
      match emitted {
        case Err(e) =>
          ExtendErr(table, Expander(k), i, e);
          return Err(e);
        case Ok(rows) =>
          ExtendOk(table, Expander(k), i, newRows);
          newRows := newRows + rows;
      }
      i := i + 1;
    }
    assert table[..i] == table;
    return Frame(newRows, w);
  }

  /** The output has one row per step of each row (one for a row that is not split), and the
      rows emitted for row i, `ExpandRow(t[i], k)`, stand together, in input order, after the
      `StepTotal(t[..i], k)` rows of the rows before it. */
  lemma RowsContiguous(t: Table, k: nat)
    ensures Reorganize(t, k).Ok? ==> |Reorganize(t, k).value| == StepTotal(t, k)
    ensures Reorganize(t, k).Ok? ==> forall i :: 0 <= i < |t| ==>
      PlacedAt(t, Expander(k), Counter(k), Reorganize(t, k).value, i)
  {
    ExpandRowCount(k);
    Contiguous(t, Expander(k), Counter(k));
  }

  /** Reading the step column of the output top to bottom gives each row's steps (or its own
      step cell, when it is not split), row after row in input order. */
  lemma StepColumnInOrder(t: Table, k: nat)
    ensures Reorganize(t, k).Ok? ==>
      HasColumn(Reorganize(t, k).value, k) && Column(Reorganize(t, k).value, k) == ConcatMap(t, StepCellsOf(k))
  {
    forall row | Expander(k)(row).Ok?
      ensures HasColumn(Expander(k)(row).value, k) && Column(Expander(k)(row).value, k) == StepCellsOf(k)(row)
    {
      ExpandRowColumn(row, k);
    }
    ColumnOf(t, Expander(k), k, StepCellsOf(k));
  }

  /** Every emitted row of a table w wide is either w wide (a row that is not split) or ends
      at the step column (a row that is); see `SucceedsIff` for when the frame can be built. */
  lemma RowWidths(t: Table, k: nat, w: nat)
    ensures Rectangular(t, w) && Reorganize(t, k).Ok? ==> WidthsIn(Reorganize(t, k).value, {w, k + 1})
  {
    forall row | |row| in {w, k + 1} && Expander(k)(row).Ok? ensures WidthsIn(Expander(k)(row).value, {w, k + 1}) {
      ExpandRowWidths(row, k);
    }
    Widths(t, Expander(k), {w, k + 1});
    assert Rectangular(t, w) ==> WidthsIn(t, {w, k + 1});
  }

  /** A table none of whose step cells is split comes back unchanged. */
  lemma NoSplitIdentity(t: Table, k: nat)
    requires forall i :: 0 <= i < |t| ==> k < |t[i]| && SplitCellIntoSteps(t[i][k]) == NoSplit
    ensures Reorganize(t, k) == Ok(t)
  {
    Identity(t, Expander(k));
  }

  /** The loop raises exactly the exception of the first row that raises one; apart from the
      frame construction's own `ColumnCountMismatch`, so does the call. */
  lemma FailsAtFirstBadRow(t: Table, k: nat, w: nat, x: Error)
    ensures Reorganize(t, k) == Err(x) <==>
      exists i :: 0 <= i < |t| && ExpandRow(t[i], k) == Err(x) && forall j :: 0 <= j < i ==> ExpandRow(t[j], k).Ok?
    ensures x != ColumnCountMismatch ==> (ReorganizeFrame(t, k, w) == Err(x) <==> Reorganize(t, k) == Err(x))
  {
    ErrIffFirst(t, Expander(k), x);
    if Reorganize(t, k).Err? {
      var i :| 0 <= i < |t| && ExpandRow(t[i], k) == Err(Reorganize(t, k).error);
      assert Reorganize(t, k).error != ColumnCountMismatch;
    }
  }

  /** The loop completes exactly when every row has the step column and no step cell is a
      number. */
  lemma CollectsIff(t: Table, k: nat)
    ensures Reorganize(t, k).Ok? <==> forall i :: 0 <= i < |t| ==> k < |t[i]| && !t[i][k].Other?
  {
    OkIff(t, Expander(k));
    forall i | 0 <= i < |t| ensures ExpandRow(t[i], k).Ok? <==> k < |t[i]| && !t[i][k].Other? {
      ExpandRowCases(t[i], k);
    }
  }

  /** No row expands into nothing. */
  lemma ExpandRowNonEmpty(k: nat)
    ensures forall row :: Expander(k)(row).Ok? ==> Expander(k)(row).value != []
  {
    ExpandRowCount(k);
  }

  /** When every row splits and the step column is not the last, every collected row stops
      short of the last column, so `pd.DataFrame` refuses the rows: the call raises. */
  lemma AllSplitMismatch(t: Table, k: nat, w: nat)
    requires Rectangular(t, w) && t != [] && k + 1 < w
    requires forall i :: 0 <= i < |t| ==> k < |t[i]| && SplitCellIntoSteps(t[i][k]).Steps?
    ensures ReorganizeFrame(t, k, w) == Err(ColumnCountMismatch)
  {
    OkIff(t, Expander(k));
    forall i | 0 <= i < |t| && Expander(k)(t[i]).Ok?
      ensures WidthsIn(Expander(k)(t[i]).value, {k + 1})
    {
      ExpandRowWidths(t[i], k);
    }
    WidthsOfRows(t, Expander(k), {k + 1});
    ExpandRowNonEmpty(k);
    NonEmptyOutput(t, Expander(k));
    var rows := Reorganize(t, k).value;
    var j :| 0 <= j < |rows| && |rows[j]| == MaxWidth(rows);
    assert MaxWidth(rows) == k + 1;
  }

  /** A row that is not split stands unchanged among the collected rows. */
  lemma UnsplitRowKept(t: Table, k: nat, i: nat)
    requires i < |t| && Reorganize(t, k).Ok? && k < |t[i]| && SplitCellIntoSteps(t[i][k]).NoSplit?
    ensures exists j :: 0 <= j < |Reorganize(t, k).value| && Reorganize(t, k).value[j] == t[i]
  {
    RowsContiguous(t, k);
    assert Expander(k)(t[i]) == Ok([t[i]]);
    PassedRowKept(t, Expander(k), Counter(k), Reorganize(t, k).value, i);
  }

  /** No collected row is wider than the data frame. */
  lemma RowsNoWider(t: Table, k: nat, w: nat)
    requires Rectangular(t, w) && Reorganize(t, k).Ok?
    ensures forall j :: 0 <= j < |Reorganize(t, k).value| ==> |Reorganize(t, k).value[j]| <= w
  {
    if t != [] {
      OkIff(t, Expander(k));
      assert Expander(k)(t[0]).Ok?;
      assert k < w;
      RowWidths(t, k, w);
    }
  }

  /** When some row is not split, or the step column is the last, the frame can be built. */
  lemma FullRowFrames(t: Table, k: nat, w: nat)
    requires Rectangular(t, w) && Reorganize(t, k).Ok?
    requires t == [] || k + 1 == w || exists i :: 0 <= i < |t| && k < |t[i]| && SplitCellIntoSteps(t[i][k]).NoSplit?
    ensures ReorganizeFrame(t, k, w).Ok?
  {
    if t != [] {
      var rows := Reorganize(t, k).value;
      RowsNoWider(t, k, w);
      if k + 1 != w {
        var i :| 0 <= i < |t| && k < |t[i]| && SplitCellIntoSteps(t[i][k]).NoSplit?;
        UnsplitRowKept(t, k, i);
        var j :| 0 <= j < |rows| && rows[j] == t[i];
        MaxWidthIs(rows, w, j);
      } else {
        ExpandRowNonEmpty(k);
        NonEmptyOutput(t, Expander(k));
        RowWidths(t, k, w);
        assert |rows[0]| in {w, k + 1};
        MaxWidthIs(rows, w, 0);
      }
    }
  }

  /** The call, frame construction included, completes exactly when every row has the step
      column, no step cell is a number, and the table is empty, the step column is the last,
      or some row is not split. */
  lemma SucceedsIff(t: Table, k: nat, w: nat)
    requires Rectangular(t, w)
    ensures ReorganizeFrame(t, k, w).Ok? <==>
      (forall i :: 0 <= i < |t| ==> k < |t[i]| && !t[i][k].Other?) &&
      (t == [] || k + 1 == w || exists i :: 0 <= i < |t| && k < |t[i]| && SplitCellIntoSteps(t[i][k]).NoSplit?)
  {
    CollectsIff(t, k);
    if Reorganize(t, k).Ok? {
      if t == [] || k + 1 == w || exists i :: 0 <= i < |t| && k < |t[i]| && SplitCellIntoSteps(t[i][k]).NoSplit? {
        FullRowFrames(t, k, w);
      } else {
        assert |t[0]| == w;
        forall i | 0 <= i < |t| ensures k < |t[i]| && SplitCellIntoSteps(t[i][k]).Steps? {
          assert !t[i][k].Other?;
        }
        AllSplitMismatch(t, k, w);
      }
    }
  }

  /** The data frame the notebook evidently means to build: every collected row filled up to
      the `w` columns with missing values, as short rows are when some row is full width. */
  function PaddedFrame(rows: seq<Row>, w: nat): (r: Result<Table>)
    ensures r.Ok? <==> forall j :: 0 <= j < |rows| ==> |rows[j]| <= w
    ensures r.Ok? ==> |r.value| == |rows| && Rectangular(r.value, w)
    ensures r.Ok? ==> forall j :: 0 <= j < |rows| ==> |rows[j]| <= w && r.value[j] == Pad(rows[j], w)
  {
    if forall j :: 0 <= j < |rows| ==> |rows[j]| <= w then
      Ok(seq(|rows|, j requires 0 <= j < |rows| && |rows[j]| <= w => Pad(rows[j], w)))
    else Err(ColumnCountMismatch)
  }

  /** `reorganize_data` with the frame built by `PaddedFrame`. */
  function ReorganizeIntended(t: Table, k: nat, w: nat): (r: Result<Table>)
    ensures r.Ok? ==> Rectangular(r.value, w)
  {
    match Reorganize(t, k)
    case Err(e) => Err(e)
    case Ok(rows) => PaddedFrame(rows, w)
  }

  /** With the padded frame the call completes exactly when every row has the step column and
      no step cell is a number, whether or not the rows split, and the frame holds the collected
      rows filled up to the width of the data frame. */
  lemma IntendedSucceedsIff(t: Table, k: nat, w: nat)
    requires Rectangular(t, w)
    ensures ReorganizeIntended(t, k, w).Ok? <==> forall i :: 0 <= i < |t| ==> k < |t[i]| && !t[i][k].Other?
    ensures ReorganizeIntended(t, k, w).Ok? ==>
      Reorganize(t, k).Ok? && |ReorganizeIntended(t, k, w).value| == |Reorganize(t, k).value| &&
      forall j :: 0 <= j < |Reorganize(t, k).value| ==>
        |Reorganize(t, k).value[j]| <= w && ReorganizeIntended(t, k, w).value[j] == Pad(Reorganize(t, k).value[j], w)
  {
    CollectsIff(t, k);
    if Reorganize(t, k).Ok? {
      RowsNoWider(t, k, w);
    }
  }

  /** A step column index past the last column raises on the first row; a table with no rows
      is returned empty whatever the index. */
  lemma IndexOutOfRange(t: Table, k: nat, w: nat)
    requires Rectangular(t, w) && k >= w
    ensures t != [] ==> Reorganize(t, k) == Err(StepColumnOutOfRange)
    ensures t == [] ==> Reorganize(t, k) == Ok([])
  {
    if t != [] {
      assert t[..0] == [];
      ExtendErr(t, Expander(k), 0, StepColumnOutOfRange);
    }
  }

  /** Joining, with newlines, the step-column texts of the rows emitted for a text step cell
      gives the original cell text back. */
  lemma StepsRejoin(row: Row, k: nat)
    requires k < |row| && row[k].Text? && ExpandRow(row, k).Ok?
    ensures HasColumn(ExpandRow(row, k).value, k)
    ensures Join(TextsOf(Column(ExpandRow(row, k).value, k)), '\n') == row[k].s
  {
    ExpandRowColumn(row, k);
    match SplitCellIntoSteps(row[k]) {
      case Steps(steps) =>
        assert TextsOf(Texts(steps)) == steps;
      case NoSplit =>
        assert TextsOf([row[k]]) == [row[k].s];
    }
  }
}
