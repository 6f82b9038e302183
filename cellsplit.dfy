/** `split_cell_into_steps`, which both reorganisation variants share, and the step counts and
    step-column values that a row contributes to the output. */
module CellSplit {
  import opened Cells
  import opened Strings
  import opened Tables

  /** What `split_cell_into_steps` gives for one cell: `None`, the list of steps, or, for a
      value that is neither missing nor text, the exception that `.strip()` raises. */
  datatype Outcome = NoSplit | Steps(steps: seq<string>) | NotText

  /** A missing cell or whitespace-only text is not split; other text is split on `'\n'` and
      the pieces are returned, untrimmed and with empty pieces kept, when there are two or more. */
  function SplitCellIntoSteps(c: Cell): (r: Outcome)
    ensures r.NotText? <==> c.Other?
    ensures r.Steps? ==> c.Text? && |r.steps| >= 2 && Join(r.steps, '\n') == c.s
    ensures r.Steps? ==> forall i :: 0 <= i < |r.steps| ==> '\n' !in r.steps[i]
  {
    match c
    case Blank => NoSplit
    case Other(_) => NotText
    case Text(s) =>
      if Strip(s) == "" then NoSplit
      else
        var steps := Split(s, '\n');
        if |steps| > 1 then Steps(steps) else NoSplit
  }

  /** A cell is split exactly when it is text that is not whitespace only and holds a newline. */
  lemma SplitsIff(c: Cell)
    ensures SplitCellIntoSteps(c).Steps? <==> c.Text? && !AllSpace(c.s) && Contains(c.s, '\n')
  {
    if c.Text? {
      SplitManyIff(c.s, '\n');
    }
  }

  /** The steps are the only decomposition of the text into two or more newline-free pieces. */
  lemma StepsUnique(c: Cell, parts: seq<string>)
    requires c.Text? && !AllSpace(c.s)
    requires |parts| >= 2 && Join(parts, '\n') == c.s
    requires forall i :: 0 <= i < |parts| ==> '\n' !in parts[i]
    ensures SplitCellIntoSteps(c) == Steps(parts)
  {
    SplitJoin(parts, '\n');
  }

  /** Worked case: three lines give three steps. */
  lemma ThreeStepsExample()
    ensures SplitCellIntoSteps(Text("a\nb\nc")) == Steps(["a", "b", "c"])
  {
    assert Join(["a", "b", "c"], '\n') == "a\nb\nc" by {
      assert Join(["b", "c"], '\n') == "b\nc";
    }
    assert "a\nb\nc"[0] == 'a' && !IsSpace('a');
    StepsUnique(Text("a\nb\nc"), ["a", "b", "c"]);
  }

  /** Worked case: two lines give two steps. */
  lemma TwoStepsExample()
    ensures SplitCellIntoSteps(Text("a\nb")) == Steps(["a", "b"])
  {
    assert Join(["a", "b"], '\n') == "a\nb";
    assert "a\nb"[0] == 'a' && !IsSpace('a');
    StepsUnique(Text("a\nb"), ["a", "b"]);
  }

  /** Worked case: a three-line step cell. */
  lemma ScenarioSteps()
    ensures SplitCellIntoSteps(Text("s1\ns2\ns3")) == Steps(["s1", "s2", "s3"])
  {
    assert Join(["s1", "s2", "s3"], '\n') == "s1\ns2\ns3" by {
      assert Join(["s2", "s3"], '\n') == "s2\ns3";
    }
    assert "s1\ns2\ns3"[0] == 's' && !IsSpace('s');
    StepsUnique(Text("s1\ns2\ns3"), ["s1", "s2", "s3"]);
  }

  /** Worked case: a trailing newline gives a last, empty step. */
  lemma TrailingNewlineExample()
    ensures SplitCellIntoSteps(Text("a\n")) == Steps(["a", ""])
  {
    assert Join(["a", ""], '\n') == "a\n";
    assert "a\n"[0] == 'a' && !IsSpace('a');
    StepsUnique(Text("a\n"), ["a", ""]);
  }

  /** Worked cases that are not split: empty, blank, a lone newline, a single line, a missing
      cell; and a number, on which `.strip()` raises. */
  lemma NoSplitExamples()
    ensures SplitCellIntoSteps(Text("")) == NoSplit
    ensures SplitCellIntoSteps(Text("   ")) == NoSplit
    ensures SplitCellIntoSteps(Text("\n")) == NoSplit
    ensures SplitCellIntoSteps(Text("single")) == NoSplit
    ensures SplitCellIntoSteps(Blank) == NoSplit
    ensures SplitCellIntoSteps(Other(7)) == NotText
  {
    assert AllSpace("   ");
    assert AllSpace("\n");
    assert !Contains("single", '\n');
    SplitsIff(Text("single"));
  }

  /** How many output rows a row is expanded into: its steps, or 1 when it is not split. */
  function StepCount(row: Row, k: nat): nat
  {
    if k < |row| && SplitCellIntoSteps(row[k]).Steps? then |SplitCellIntoSteps(row[k]).steps| else 1
  }

  function Counter(k: nat): Row -> nat
  {
    row => StepCount(row, k)
  }

  /** The number of output rows a whole table is expanded into. */
  function StepTotal(t: Table, k: nat): nat
  {
    Total(t, Counter(k))
  }

  function Texts(steps: seq<string>): seq<Cell>
  {
    seq(|steps|, j requires 0 <= j < |steps| => Text(steps[j]))
  }

  /** The step-column values a row contributes to the output, top to bottom: its steps, or its
      own step cell when it is not split. */
  function StepCells(row: Row, k: nat): seq<Cell>
  {
    if k < |row| then
      match SplitCellIntoSteps(row[k])
      case Steps(steps) => Texts(steps)
      case _ => [row[k]]
    else []
  }

  function StepCellsOf(k: nat): Row -> seq<Cell>
  {
    row => StepCells(row, k)
  }

  /** The text of a step-column value, for rejoining. */
  function TextOf(c: Cell): string
  {
    if c.Text? then c.s else ""
  }

  function TextsOf(cells: seq<Cell>): seq<string>
  {
    seq(|cells|, j requires 0 <= j < |cells| => TextOf(cells[j]))
  }
}
