/** The loop that both variants of `reorganize_data` run over the rows of a table, for any
    per-row expansion, and what it guarantees whatever that expansion is. */
module Tables {
  import opened Cells

  /** Each row's emitted rows appended to the output in input order; the first row whose
      expansion raises makes the whole call raise. */
  function ReorganizeWith(t: Table, expand: Row -> Result<seq<Row>>): (r: Result<Table>)
    ensures t == [] ==> r == Ok([])
    ensures r.Err? ==> exists i :: 0 <= i < |t| && expand(t[i]) == Err(r.error)
  {
    if t == [] then Ok([])
    else
      match ReorganizeWith(t[..|t| - 1], expand)
      case Err(e) => Err(e)
      case Ok(prev) =>
        match expand(t[|t| - 1])
        case Err(e) => Err(e)
        case Ok(rows) => Ok(prev + rows)
  }

  /** The sum of `count` over the rows. */
  function Total(t: Table, count: Row -> nat): nat
  {
    if t == [] then 0 else Total(t[..|t| - 1], count) + count(t[|t| - 1])
  }

  predicate HasColumn(rows: seq<Row>, k: nat)
  {
    forall j :: 0 <= j < |rows| ==> k < |rows[j]|
  }

  /** The values of column `k`, top to bottom. */
  function Column(rows: seq<Row>, k: nat): seq<Cell>
    requires HasColumn(rows, k)
  {
    seq(|rows|, j requires 0 <= j < |rows| => rows[j][k])
  }

  /** The concatenation of `f` over the rows. */
  function ConcatMap(t: Table, f: Row -> seq<Cell>): seq<Cell>
  {
    if t == [] then [] else ConcatMap(t[..|t| - 1], f) + f(t[|t| - 1])
  }

  predicate WidthsIn(rows: seq<Row>, ws: set<nat>)
  {
    forall j :: 0 <= j < |rows| ==> |rows[j]| in ws
  }

  /** The width of the widest row, 0 for no rows. */
  function MaxWidth(rows: seq<Row>): (m: nat)
    ensures forall j :: 0 <= j < |rows| ==> |rows[j]| <= m
    ensures rows != [] ==> exists j :: 0 <= j < |rows| && |rows[j]| == m
  {
    if rows == [] then 0
    else
      var m := MaxWidth(rows[..|rows| - 1]);
      if |rows[|rows| - 1]| > m then |rows[|rows| - 1]| else m
  }

  /** A row filled up with missing values to `w` cells. */
  function Pad(row: Row, w: nat): (r: Row)
    requires |row| <= w
    ensures |r| == w && r[..|row|] == row
    ensures forall i :: |row| <= i < w ==> r[i] == Blank
  {
    row + Fill(w - |row|, Blank)
  }

  /** `pd.DataFrame(new_rows, columns=columns)` with `w` column labels: no rows give an empty
      frame; otherwise the rows are filled up with missing values to the widest of them, and
      that width must be the number of labels. */
  function Frame(rows: seq<Row>, w: nat): (r: Result<Table>)
    ensures r.Err? <==> rows != [] && MaxWidth(rows) != w
    ensures r.Err? ==> r.error == ColumnCountMismatch
    ensures r.Ok? ==> |r.value| == |rows| && Rectangular(r.value, w)
    ensures r.Ok? ==> forall j :: 0 <= j < |rows| ==> |rows[j]| <= w && r.value[j] == Pad(rows[j], w)
  {
    if rows != [] && MaxWidth(rows) != w then Err(ColumnCountMismatch)
    else Ok(seq(|rows|, j requires 0 <= j < |rows| && |rows[j]| <= w => Pad(rows[j], w)))
  }

  /** The widest row is w wide when no row is wider and some row is exactly w wide. */
  lemma MaxWidthIs(rows: seq<Row>, w: nat, j: nat)
    requires forall i :: 0 <= i < |rows| ==> |rows[i]| <= w
    requires j < |rows| && |rows[j]| == w
    ensures MaxWidth(rows) == w
  {
    var i :| 0 <= i < |rows| && |rows[i]| == MaxWidth(rows);
  }

  /** Rows that are all as wide as the header make a frame of exactly those rows. */
  lemma FrameOfRectangular(rows: seq<Row>, w: nat)
    requires Rectangular(rows, w)
    ensures Frame(rows, w) == Ok(rows)
  {
    if rows != [] {
      var j :| 0 <= j < |rows| && |rows[j]| == MaxWidth(rows);
      assert MaxWidth(rows) == w;
    }
    var f := Frame(rows, w).value;
    forall j | 0 <= j < |rows| ensures f[j] == rows[j] {
      assert Fill(0, Blank) == [];
    }
    assert f == rows;
  }

  /** One more row that expands successfully appends its rows. */
  lemma ExtendOk(t: Table, expand: Row -> Result<seq<Row>>, i: nat, out: Table)
    requires i < |t| && ReorganizeWith(t[..i], expand) == Ok(out) && expand(t[i]).Ok?
    ensures ReorganizeWith(t[..i + 1], expand) == Ok(out + expand(t[i]).value)
  {
    assert t[..i + 1][..i] == t[..i];
  }

  /** Once a prefix raises, the whole table raises the same error. */
  lemma {:induction false} ErrorPersists(t: Table, expand: Row -> Result<seq<Row>>, i: nat, x: Error)
    requires i <= |t| && ReorganizeWith(t[..i], expand) == Err(x)
    ensures ReorganizeWith(t, expand) == Err(x)
    decreases |t| - i
  {
    if i < |t| {
      assert t[..i + 1][..i] == t[..i];
      ErrorPersists(t, expand, i + 1, x);
    } else {
      assert t[..i] == t;
    }
  }

  /** A row that raises after a prefix that did not makes the whole table raise its error. */
  lemma ExtendErr(t: Table, expand: Row -> Result<seq<Row>>, i: nat, x: Error)
    requires i < |t| && ReorganizeWith(t[..i], expand).Ok? && expand(t[i]) == Err(x)
    ensures ReorganizeWith(t, expand) == Err(x)
  {
    assert t[..i + 1][..i] == t[..i];
    ErrorPersists(t, expand, i + 1, x);
  }

  /** The table is reorganised exactly when every row expands. */
  lemma {:induction false} OkIff(t: Table, expand: Row -> Result<seq<Row>>)
    ensures ReorganizeWith(t, expand).Ok? <==> forall i :: 0 <= i < |t| ==> expand(t[i]).Ok?
  {
    if t != [] {
      var p := t[..|t| - 1];
      OkIff(p, expand);
      assert forall i :: 0 <= i < |p| ==> p[i] == t[i];
    }
  }

  /** The table raises `x` exactly when some row raises `x` and every row before it expands. */
  lemma {:induction false} ErrIffFirst(t: Table, expand: Row -> Result<seq<Row>>, x: Error)
    ensures ReorganizeWith(t, expand) == Err(x) <==>
      exists i :: 0 <= i < |t| && expand(t[i]) == Err(x) && forall j :: 0 <= j < i ==> expand(t[j]).Ok?
  {
    if t != [] {
      var p := t[..|t| - 1];
      ErrIffFirst(p, expand, x);
      OkIff(p, expand);
      assert forall i :: 0 <= i < |p| ==> p[i] == t[i];
      if exists i :: 0 <= i < |t| && expand(t[i]) == Err(x) && forall j :: 0 <= j < i ==> expand(t[j]).Ok? {
        var i :| 0 <= i < |t| && expand(t[i]) == Err(x) && forall j :: 0 <= j < i ==> expand(t[j]).Ok?;
        OkIff(t[..i], expand);
        ExtendErr(t, expand, i, x);
      }
    }
  }

  /** Row `i`'s emitted rows stand in `out` from the sum of the counts of the rows before it. */
  predicate PlacedAt(t: Table, expand: Row -> Result<seq<Row>>, count: Row -> nat, out: Table, i: nat)
    requires i < |t|
  {
    expand(t[i]).Ok? && Total(t[..i], count) + count(t[i]) <= |out| &&
    out[Total(t[..i], count)..Total(t[..i], count) + count(t[i])] == expand(t[i]).value
  }

  lemma PlacedAfterAppend(t: Table, expand: Row -> Result<seq<Row>>, count: Row -> nat, prev: Table, rows: seq<Row>, i: nat)
    requires t != [] && i < |t| - 1
    requires PlacedAt(t[..|t| - 1], expand, count, prev, i)
    ensures PlacedAt(t, expand, count, prev + rows, i)
  {
    var p := t[..|t| - 1];
    assert t[..i] == p[..i] && t[i] == p[i];
    var a := Total(t[..i], count);
    assert (prev + rows)[a..a + count(t[i])] == prev[a..a + count(t[i])];
  }

  /** A row placed in `out` as itself appears in `out`. */
  lemma PassedRowKept(t: Table, expand: Row -> Result<seq<Row>>, count: Row -> nat, out: Table, i: nat)
    requires i < |t| && PlacedAt(t, expand, count, out, i) && expand(t[i]) == Ok([t[i]])
    ensures exists j :: 0 <= j < |out| && out[j] == t[i]
  {
    var a := Total(t[..i], count);
    assert out[a..a + count(t[i])] == [t[i]];
    assert out[a] == t[i];
  }

  /** When every row's rows number `count(row)`, the output has the sum of the counts, and row
      `i`'s rows stand together, after those of the rows before it. */
  lemma {:induction false} Contiguous(t: Table, expand: Row -> Result<seq<Row>>, count: Row -> nat)
    requires forall row :: expand(row).Ok? ==> |expand(row).value| == count(row)
    ensures ReorganizeWith(t, expand).Ok? ==> |ReorganizeWith(t, expand).value| == Total(t, count)
    ensures ReorganizeWith(t, expand).Ok? ==> forall i :: 0 <= i < |t| ==> PlacedAt(t, expand, count, ReorganizeWith(t, expand).value, i)
  {
    if t != [] && ReorganizeWith(t, expand).Ok? {
      var p := t[..|t| - 1];
      Contiguous(p, expand, count);
      var prev := ReorganizeWith(p, expand).value;
      var rows := expand(t[|t| - 1]).value;
      assert ReorganizeWith(t, expand).value == prev + rows;
      forall i | 0 <= i < |t|
        ensures PlacedAt(t, expand, count, prev + rows, i)
      {
        if i < |p| {
          PlacedAfterAppend(t, expand, count, prev, rows, i);
        } else {
          assert t[..i] == p;
        }
      }
    }
  }

  /** A table whose every row expands to itself is left as it is. */
  lemma {:induction false} Identity(t: Table, expand: Row -> Result<seq<Row>>)
    requires forall i :: 0 <= i < |t| ==> expand(t[i]) == Ok([t[i]])
    ensures ReorganizeWith(t, expand) == Ok(t)
  {
    if t != [] {
      var p := t[..|t| - 1];
      assert forall i :: 0 <= i < |p| ==> p[i] == t[i];
      Identity(p, expand);
      assert p + [t[|t| - 1]] == t;
    }
  }

  /** Row widths drawn from `ws` stay in `ws` when every expansion keeps them there. */
  lemma {:induction false} Widths(t: Table, expand: Row -> Result<seq<Row>>, ws: set<nat>)
    requires forall row :: |row| in ws && expand(row).Ok? ==> WidthsIn(expand(row).value, ws)
    ensures WidthsIn(t, ws) && ReorganizeWith(t, expand).Ok? ==> WidthsIn(ReorganizeWith(t, expand).value, ws)
  {
    if t != [] && WidthsIn(t, ws) {
      var p := t[..|t| - 1];
      assert WidthsIn(p, ws);
      Widths(p, expand, ws);
    }
  }

  /** Widths that every row of this table expands into are the widths of the output. */
  lemma {:induction false} WidthsOfRows(t: Table, expand: Row -> Result<seq<Row>>, ws: set<nat>)
    requires forall i :: 0 <= i < |t| && expand(t[i]).Ok? ==> WidthsIn(expand(t[i]).value, ws)
    ensures ReorganizeWith(t, expand).Ok? ==> WidthsIn(ReorganizeWith(t, expand).value, ws)
  {
    if t != [] {
      var p := t[..|t| - 1];
      assert forall i :: 0 <= i < |p| ==> p[i] == t[i];
      WidthsOfRows(p, expand, ws);
    }
  }

  /** When no row expands into nothing, a table with rows gives an output with rows. */
  lemma {:induction false} NonEmptyOutput(t: Table, expand: Row -> Result<seq<Row>>)
    requires forall row :: expand(row).Ok? ==> expand(row).value != []
    ensures t != [] && ReorganizeWith(t, expand).Ok? ==> ReorganizeWith(t, expand).value != []
  {
  }

  lemma ColumnAppend(a: seq<Row>, b: seq<Row>, k: nat)
    requires HasColumn(a, k) && HasColumn(b, k)
    ensures HasColumn(a + b, k) && Column(a + b, k) == Column(a, k) + Column(b, k)
  {
  }

  /** When column `k` of every row's emitted rows reads `cells(row)`, column `k` of the output
      reads the rows' `cells` one after the other, in input order. */
  lemma {:induction false} ColumnOf(t: Table, expand: Row -> Result<seq<Row>>, k: nat, cells: Row -> seq<Cell>)
    requires forall row :: expand(row).Ok? ==>
      HasColumn(expand(row).value, k) && Column(expand(row).value, k) == cells(row)
    ensures ReorganizeWith(t, expand).Ok? ==>
      HasColumn(ReorganizeWith(t, expand).value, k) && Column(ReorganizeWith(t, expand).value, k) == ConcatMap(t, cells)
  {
    if t != [] && ReorganizeWith(t, expand).Ok? {
      var p := t[..|t| - 1];
      ColumnOf(p, expand, k, cells);
      ColumnAppend(ReorganizeWith(p, expand).value, expand(t[|t| - 1]).value, k);
    }
  }
}
