/** A worked two-row table run through the cleaner and the frequency calculator. */
module Scenarios {
  import opened Wrappers
  import opened Strings
  import opened Sequences
  import opened Tables
  import opened Cleaner
  import opened Frequencies

  const Columns: seq<string> :=
    ["response", "treatment", "project", "b_cell", "cd8_t_cell", "cd4_t_cell", "nk_cell", "monocyte"]

  /** A row with ten cells of every population and project `prj1`. */
  function CountsRow(response: string, treatment: string): Row {
    map["response" := Text(response), "treatment" := Text(treatment), "project" := Text("prj1"),
        "b_cell" := Count(10), "cd8_t_cell" := Count(10), "cd4_t_cell" := Count(10),
        "nk_cell" := Count(10), "monocyte" := Count(10)]
  }

  lemma CountsRowCells(response: string, treatment: string)
    ensures Cell(CountsRow(response, treatment), "response") == Text(response)
    ensures Cell(CountsRow(response, treatment), "treatment") == Text(treatment)
    ensures Cell(CountsRow(response, treatment), "project") == Text("prj1")
  {
  }

  lemma CountsRowCounts(response: string, treatment: string)
    ensures forall k :: 0 <= k < |CellTypes| ==> Cell(CountsRow(response, treatment), CellTypes[k]) == Count(10)
  {
  }

  /** A row with response `Y`, treatment `TR1` and project `prj1` passes the cleaner's three conditions. */
  lemma Tr1RowKept(r: Row)
    requires Cell(r, "response") == Text("Y")
    requires Cell(r, "treatment") == Text("TR1") && Cell(r, "project") == Text("prj1")
    ensures KeepRow(r)
  {
    LowerLiteral("TR1", "tr1");
    LowerLiteral("prj1", "prj1");
  }

  /** A row treated with `none` does not. */
  lemma NoneRowDropped(r: Row)
    requires Cell(r, "treatment") == Text("none")
    ensures !KeepRow(r)
  {
    LowerLiteral("none", "none");
  }

  /** `Lower` on the example's three short literals. */
  lemma LowerLiteral(s: string, lowered: string)
    requires (s == "TR1" && lowered == "tr1") || (s == "prj1" && lowered == "prj1") || (s == "none" && lowered == "none")
    ensures Lower(s) == lowered
  {
    if s == "TR1" {
      assert s[0] == 'T' && s[1] == 'R' && s[2] == '1';
      assert lowered[0] == 't' && lowered[1] == 'r' && lowered[2] == '1';
    } else if s == "prj1" {
      assert s[0] == 'p' && s[1] == 'r' && s[2] == 'j' && s[3] == '1';
      LowerOfLowered(s);
    } else {
      assert s[0] == 'n' && s[1] == 'o' && s[2] == 'n' && s[3] == 'e';
      LowerOfLowered(s);
    }
  }

  /** The example's columns name the three columns the cleaner reads, and all five populations. */
  lemma ExampleColumns()
    ensures {"response", "treatment", "project"} <= set c | c in Columns
    ensures forall c :: c in CellTypes ==> c in Columns
  {
    assert Columns[0] == "response" && Columns[1] == "treatment" && Columns[2] == "project";
    assert forall k :: 0 <= k < |CellTypes| ==> CellTypes[k] == Columns[k + 3];
  }

  /** Of a kept row followed by a dropped one, the filter leaves the first alone. */
  lemma TwoRowFilter(keep: Row, drop: Row)
    requires KeepRow(keep) && !KeepRow(drop)
    ensures Filter([keep, drop], KeepRow) == [keep]
  {
    assert [keep, drop] == [keep] + [drop];
    FilterAppend([keep], [drop], KeepRow);
    FilterAllKept([keep], KeepRow);
    FilterNoneKept([drop], KeepRow);
  }

  /** The cleaner keeps the `Y`/`TR1` row and drops the row whose treatment is `none`. */
  lemma ExampleClean()
    ensures CleanData(Table(Columns, [CountsRow("Y", "TR1"), CountsRow("N", "none")]))
      == Success(Table(Columns, [CountsRow("Y", "TR1")]))
  {
    var keep, drop := CountsRow("Y", "TR1"), CountsRow("N", "none");
    CountsRowCells("Y", "TR1");
    CountsRowCells("N", "none");
    Tr1RowKept(keep);
    NoneRowDropped(drop);
    ExampleColumns();
    CleanIsOneFilter(Table(Columns, [keep, drop]));
    TwoRowFilter(keep, drop);
  }

  /** Five counts of 10 give a total of 50. */
  lemma TensTotal(r: Row)
    requires forall k :: 0 <= k < |CellTypes| ==> Cell(r, CellTypes[k]) == Count(10)
    ensures RowTotal(r) == 50
  {
    RowTotalIsSum(r);
    assert Cell(r, "b_cell") == Cell(r, CellTypes[0]);
    assert Cell(r, "cd8_t_cell") == Cell(r, CellTypes[1]);
    assert Cell(r, "cd4_t_cell") == Cell(r, CellTypes[2]);
    assert Cell(r, "nk_cell") == Cell(r, CellTypes[3]);
    assert Cell(r, "monocyte") == Cell(r, CellTypes[4]);
  }

  /** A one-row table with all five count columns succeeds with one row derived from that row. */
  lemma OneRowFrequencies(cols: seq<string>, r: Row)
    requires forall c :: c in CellTypes ==> c in cols
    ensures var d := RelFreq(Table(cols, [r]));
      && d.Success?
      && |d.value.rows| == 1
      && Cell(d.value.rows[0], "total_count") == Count(RowTotal(r))
      && forall k :: 0 <= k < |CellTypes| ==>
        Cell(d.value.rows[0], PercentageColumns[k]) == Share(Cell(r, CellTypes[k]), RowTotal(r))
  {
    var t := Table(cols, [r]);
    assert RelFreq(t).Success?;
    RelFreqRows(t);
  }

  /** A one-row table with every population at 10 gets a total of 50 and five shares of 0.2. */
  lemma TensFrequencies(cols: seq<string>, r: Row)
    requires forall c :: c in CellTypes ==> c in cols
    requires forall k :: 0 <= k < |CellTypes| ==> Cell(r, CellTypes[k]) == Count(10)
    ensures var d := RelFreq(Table(cols, [r]));
      && d.Success?
      && |d.value.rows| == 1
      && Cell(d.value.rows[0], "total_count") == Count(50)
      && forall k :: 0 <= k < |PercentageColumns| ==> Cell(d.value.rows[0], PercentageColumns[k]) == Ratio(0.2)
  {
    OneRowFrequencies(cols, r);
    TensShares(r);
    var out := RelFreq(Table(cols, [r])).value.rows[0];
    forall k | 0 <= k < |PercentageColumns|
      ensures Cell(out, PercentageColumns[k]) == Ratio(0.2)
    {
      assert Cell(out, PercentageColumns[k]) == Share(Cell(r, CellTypes[k]), RowTotal(r));
    }
  }

  lemma TenOfFifty()
    ensures Share(Count(10), 50) == Ratio(0.2)
  {
  }

  /** Five counts of 10 give five shares of 0.2. */
  lemma TensShares(r: Row)
    requires forall k :: 0 <= k < |CellTypes| ==> Cell(r, CellTypes[k]) == Count(10)
    ensures RowTotal(r) == 50
    ensures forall k :: 0 <= k < |CellTypes| ==> Share(Cell(r, CellTypes[k]), RowTotal(r)) == Ratio(0.2)
  {
    TensTotal(r);
    TenOfFifty();
  }

  /** The row left by the cleaner has a total of 50 and every share equal to 0.2. */
  lemma ExampleFrequencies()
    ensures var d := RelFreq(Table(Columns, [CountsRow("Y", "TR1")]));
      && d.Success?
      && |d.value.rows| == 1
      && Cell(d.value.rows[0], "total_count") == Count(50)
      && forall k :: 0 <= k < |PercentageColumns| ==> Cell(d.value.rows[0], PercentageColumns[k]) == Ratio(0.2)
  {
    CountsRowCounts("Y", "TR1");
    ExampleColumns();
    TensFrequencies(Columns, CountsRow("Y", "TR1"));
  }
}
