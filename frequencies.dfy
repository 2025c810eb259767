/**
 * `relative_frequencies`: the per-row total of the five cell counts, each
 * count's share of that total, and the derived table that joins the kept
 * metadata columns with the five share columns by row position.
 */
module Frequencies {
  import opened Wrappers
  import opened Sequences
  import opened Tables

  /** The five counted cell populations, in the order the script lists them. */
  const CellTypes: seq<string> := ["b_cell", "cd8_t_cell", "cd4_t_cell", "nk_cell", "monocyte"]

  /** The share columns as the plotter names them. */
  const PercentageColumns: seq<string> :=
    ["b_cell_percentage", "cd8_t_cell_percentage", "cd4_t_cell_percentage", "nk_cell_percentage", "monocyte_percentage"]

  /** The metadata columns the derived table may keep, in their output order. */
  const MetadataColumns: seq<string> :=
    ["sample", "total_count", "population", "count", "response", "treatment", "sample_type", "diagnosis"]

  /** The metadata columns kept unconditionally (before the presence filter). */
  const BaseKeep: seq<string> := ["sample", "total_count", "population", "count", "response", "treatment"]

  /** The rename `f"{x}_percentage"`. */
  function PercentageName(c: string): string {
    c + "_percentage"
  }

  /** The renamed counted columns are exactly the columns the plotter expects. */
  lemma PercentageNamesAgree()
    ensures MapSeq(CellTypes, PercentageName) == PercentageColumns
  {
    var m := MapSeq(CellTypes, PercentageName);
    forall k | 0 <= k < |CellTypes| ensures m[k] == PercentageColumns[k] {
      RenamedAt(k);
    }
  }

  lemma RenamedAt(k: nat)
    requires k < |CellTypes|
    ensures PercentageName(CellTypes[k]) == PercentageColumns[k]
  {
    if k == 0 {
      RenamedAs(CellTypes[0], PercentageColumns[0]);
    } else if k == 1 {
      RenamedAs(CellTypes[1], PercentageColumns[1]);
    } else if k == 2 {
      RenamedAs(CellTypes[2], PercentageColumns[2]);
    } else if k == 3 {
      RenamedAs(CellTypes[3], PercentageColumns[3]);
    } else {
      RenamedAs(CellTypes[4], PercentageColumns[4]);
    }
  }

  lemma RenamedAs(c: string, p: string)
    requires |p| == |c| + 11 && p[..|c|] == c && p[|c|..] == "_percentage"
    ensures PercentageName(c) == p
  {
    assert p == p[..|c|] + p[|c|..];
  }

  /** A count cell as it enters the row sum: a missing (or non-count) cell adds nothing. */
  function CountOf(v: Value): nat {
    if v.Count? then v.n else 0
  }

  function SumCounts(r: Row, names: seq<string>): nat {
    if names == [] then 0 else CountOf(Cell(r, names[0])) + SumCounts(r, names[1..])
  }

  /** `data[cell_types].sum(axis=1)` for one row. */
  function RowTotal(r: Row): (t: nat)
    ensures forall k :: 0 <= k < |CellTypes| ==> CountOf(Cell(r, CellTypes[k])) <= t
    ensures t == 0 <==> forall k :: 0 <= k < |CellTypes| ==> CountOf(Cell(r, CellTypes[k])) == 0
  {
    assert forall k :: 0 <= k < |CellTypes| ==> CountOf(Cell(r, CellTypes[k])) <= SumCounts(r, CellTypes) by {
      forall k | 0 <= k < |CellTypes| {
        CountAtMostSum(r, CellTypes, k);
      }
    }
    SumCountsZero(r, CellTypes);
    SumCounts(r, CellTypes)
  }

  /**
   * One cell of `data[cell_types].div(data['total_count'], axis=0)`: the
   * count divided by the total, or Missing (NaN) when the count is missing or
   * the total is zero.
   */
  function Share(count: Value, total: nat): (r: Value)
    ensures r.Ratio? || r == Missing
    ensures r.Ratio? <==> count.Count? && total > 0
  {
    if count.Count? && total > 0 then Ratio(count.n as real / total as real) else Missing
  }

  /** The five share cells of a row, each named by the rename and divided by the row's `total_count` cell. */
  function PercentageCells(src: Row): Row {
    var total := CountOf(Cell(src, "total_count"));
    PercentageNamesAgree();
    ColumnNameLengths();
    map k | 0 <= k < |CellTypes| :: PercentageName(CellTypes[k]) := Share(Cell(src, CellTypes[k]), total)
  }

  /** The test `col in data.columns`. */
  function Presence(cols: seq<string>): string -> bool {
    c => c in cols
  }

  /** `columns_keep` with its conditional appends, then the presence filter. */
  function KeepColumns(cols: seq<string>): (r: seq<string>)
    ensures |r| <= |MetadataColumns|
    ensures forall i :: 0 <= i < |r| ==> r[i] in MetadataColumns && r[i] in cols
  {
    assert MetadataColumns == BaseKeep + ["sample_type"] + ["diagnosis"];
    var keep := BaseKeep
      + (if "sample_type" in cols then ["sample_type"] else [])
      + (if "diagnosis" in cols then ["diagnosis"] else []);
    Filter(keep, Presence(cols))
  }

  /** One row of the concatenated result: the kept metadata, then the shares. */
  function DerivedRow(src: Row, keep: seq<string>): Row {
    (map c | c in keep :: Cell(src, c)) + PercentageCells(src)
  }

  /**
   * The derived rows, one per source row by position: row i carries the
   * kept metadata cells of source row i and the shares of its counts over
   * its `total_count`.
   */
  function DerivedRows(rows: seq<Row>, keep: seq<string>): (r: seq<Row>)
    requires forall c :: c in keep ==> c in MetadataColumns
    ensures |r| == |rows|
    ensures forall i :: 0 <= i < |rows| ==> r[i] == DerivedRow(rows[i], keep)
    ensures forall i, c :: 0 <= i < |rows| && c in keep ==> Cell(r[i], c) == Cell(rows[i], c)
    ensures forall i, k :: 0 <= i < |rows| && 0 <= k < |CellTypes| ==>
      Cell(r[i], PercentageColumns[k]) == Share(Cell(rows[i], CellTypes[k]), CountOf(Cell(rows[i], "total_count")))
  {
    var r := MapSeq(rows, src => DerivedRow(src, keep));
    assert forall i :: 0 <= i < |rows| ==>
      && (forall c :: c in keep ==> Cell(r[i], c) == Cell(rows[i], c))
      && (forall k :: 0 <= k < |CellTypes| ==>
            Cell(r[i], PercentageColumns[k]) == Share(Cell(rows[i], CellTypes[k]), CountOf(Cell(rows[i], "total_count"))))
    by {
      forall i | 0 <= i < |rows| {
        DerivedRowCells(rows[i], keep);
      }
    }
    r
  }

  /** The caller's table after `data['total_count'] = ...`. */
  function WithTotalCount(t: Table): (r: Table)
    ensures |r.rows| == |t.rows|
    ensures forall c :: c in r.columns <==> c in t.columns || c == "total_count"
    ensures forall i :: 0 <= i < |t.rows| ==> Cell(r.rows[i], "total_count") == Count(RowTotal(t.rows[i]))
    ensures forall i, c :: 0 <= i < |t.rows| && c != "total_count" ==> Cell(r.rows[i], c) == Cell(t.rows[i], c)
  {
    WithColumn(t, "total_count", MapSeq(t.rows, r => Count(RowTotal(r))))
  }

  /** The counted columns absent from the table, in the order they are listed. */
  function MissingCellTypes(cols: seq<string>): (m: seq<string>)
    ensures forall c :: c in m <==> c in CellTypes && c !in cols
  {
    FilterExactly(CellTypes, c => c !in cols);
    Filter(CellTypes, c => c !in cols)
  }

  /** The table `relative_frequencies(data)` returns. */
  function RelFreq(t: Table): (r: Result<Table, Error>)
    ensures r.Failure? <==> exists c :: c in CellTypes && c !in t.columns
    ensures r.Failure? ==> r.error == KeyError(MissingCellTypes(t.columns))
  {
    var missing := MissingCellTypes(t.columns);
    if missing != [] then
      assert missing[0] in missing;
      Failure(KeyError(missing))
    else
      var wt := WithTotalCount(t);
      var keep := KeepColumns(wt.columns);
      Success(Table(keep + MapSeq(CellTypes, PercentageName), DerivedRows(wt.rows, keep)))
  }

  /**
   * `relative_frequencies(data)` on the caller's frame: it adds (or
   * overwrites) the frame's `total_count` column, then returns the derived
   * table. A missing count column raises before the frame is touched.
   */
  method RelativeFrequencies(data: Frame) returns (r: Result<Table, Error>)
    modifies data
    ensures r == RelFreq(old(data.Snapshot()))
    ensures data.Snapshot() == if r.Success? then WithTotalCount(old(data.Snapshot())) else old(data.Snapshot())
  {
    var missing := MissingCellTypes(data.columns);
    if missing != [] {
      return Failure(KeyError(missing));
    }
    var totals := MapSeq(data.rows, row => Count(RowTotal(row)));
    data.SetColumn("total_count", totals);
    var keep := KeepColumns(data.columns);
    var rows := data.rows;
    r := Success(Table(keep + MapSeq(CellTypes, PercentageName), DerivedRows(rows, keep)));
  }

  // ---------------------------------------------------------------------------
  // Properties of the derived table

  /** The conditional appends make no difference: the kept columns are the present metadata columns in fixed order. */
  lemma KeepColumnsIsPresenceFilter(cols: seq<string>)
    ensures KeepColumns(cols) == Filter(MetadataColumns, Presence(cols))
  {
    var p := Presence(cols);
    var st: seq<string> := if "sample_type" in cols then ["sample_type"] else [];
    var dg: seq<string> := if "diagnosis" in cols then ["diagnosis"] else [];
    FilterAppend(BaseKeep + st, dg, p);
    FilterAppend(BaseKeep, st, p);
    FilterAppend(BaseKeep + ["sample_type"], ["diagnosis"], p);
    FilterAppend(BaseKeep, ["sample_type"], p);
    assert MetadataColumns == BaseKeep + ["sample_type"] + ["diagnosis"];
    FilterAllKept(st, p);
    FilterAllKept(dg, p);
    assert Filter(["sample_type"], p) == st by {
      assert ["sample_type"][..0] == [];
    }
    assert Filter(["diagnosis"], p) == dg by {
      assert ["diagnosis"][..0] == [];
    }
  }

  /**
   * The derived table's columns: the metadata columns present in the input
   * (with `total_count`, which the function itself adds), in the fixed order,
   * followed by the five share columns.
   */
  lemma RelFreqSchema(t: Table)
    requires RelFreq(t).Success?
    ensures RelFreq(t).value.columns
      == Filter(MetadataColumns, Presence(t.columns + ["total_count"])) + PercentageColumns
    ensures "total_count" in RelFreq(t).value.columns
  {
    var wt := WithTotalCount(t);
    KeepColumnsIsPresenceFilter(wt.columns);
    FilterSamePredicate(MetadataColumns, Presence(wt.columns), Presence(t.columns + ["total_count"]));
    PercentageNamesAgree();
    KeptColumns(t);
  }

  /** The kept columns are metadata columns, include `total_count`, and include every metadata column of the input. */
  lemma KeptColumns(t: Table)
    ensures forall c :: c in KeepColumns(WithTotalCount(t).columns) ==> c in MetadataColumns
    ensures "total_count" in KeepColumns(WithTotalCount(t).columns)
    ensures forall c :: c in t.columns && c in MetadataColumns ==> c in KeepColumns(WithTotalCount(t).columns)
  {
    var wt := WithTotalCount(t);
    KeepColumnsIsPresenceFilter(wt.columns);
    FilterExactly(MetadataColumns, Presence(wt.columns));
    var idx := KeptIndices(MetadataColumns, Presence(wt.columns));
    var keep := KeepColumns(wt.columns);
    forall c | c in keep ensures c in MetadataColumns {
      var k :| 0 <= k < |keep| && keep[k] == c;
    }
    assert MetadataColumns[1] == "total_count";
    forall c | c in t.columns && c in MetadataColumns ensures c in keep {
      var j :| 0 <= j < |MetadataColumns| && MetadataColumns[j] == c;
      var k :| 0 <= k < |idx| && idx[k] == j;
    }
  }

  /** Row i of the derived table, one cell kind at a time. */
  lemma RelFreqRowAt(t: Table, i: nat)
    requires RelFreq(t).Success? && i < |t.rows|
    ensures i < |RelFreq(t).value.rows|
    ensures Cell(RelFreq(t).value.rows[i], "total_count") == Count(RowTotal(t.rows[i]))
    ensures forall k :: 0 <= k < |CellTypes| ==>
      Cell(RelFreq(t).value.rows[i], PercentageColumns[k])
        == Share(Cell(t.rows[i], CellTypes[k]), RowTotal(t.rows[i]))
    ensures forall c :: c in t.columns && c in MetadataColumns && c != "total_count" ==>
      Cell(RelFreq(t).value.rows[i], c) == Cell(t.rows[i], c)
  {
    var wt := WithTotalCount(t);
    var keep := KeepColumns(wt.columns);
    KeptColumns(t);
    var src := wt.rows[i];
    var out := RelFreq(t).value.rows[i];
    assert out == DerivedRow(src, keep);
    assert Cell(src, "total_count") == Count(RowTotal(t.rows[i]));
    DerivedRowCells(src, keep);
    ColumnNameLengths();
    forall k | 0 <= k < |CellTypes|
      ensures Cell(out, PercentageColumns[k]) == Share(Cell(t.rows[i], CellTypes[k]), RowTotal(t.rows[i]))
    {
      assert CellTypes[k] != "total_count" by {
        assert |CellTypes[k]| <= 10;
      }
      assert Cell(src, CellTypes[k]) == Cell(t.rows[i], CellTypes[k]);
    }
  }

  /**
   * Row i of the derived table comes from row i of the input: same number of
   * rows, the metadata cells carried over, `total_count` the sum of the five
   * counts and each share column that row's count over its total.
   */
  lemma RelFreqRows(t: Table)
    requires RelFreq(t).Success?
    ensures |RelFreq(t).value.rows| == |t.rows|
    ensures forall i :: 0 <= i < |t.rows| ==>
      Cell(RelFreq(t).value.rows[i], "total_count") == Count(RowTotal(t.rows[i]))
    ensures forall i, k :: 0 <= i < |t.rows| && 0 <= k < |CellTypes| ==>
      Cell(RelFreq(t).value.rows[i], PercentageColumns[k])
        == Share(Cell(t.rows[i], CellTypes[k]), RowTotal(t.rows[i]))
    ensures forall i, c :: 0 <= i < |t.rows| && c in t.columns && c in MetadataColumns && c != "total_count" ==>
      Cell(RelFreq(t).value.rows[i], c) == Cell(t.rows[i], c)
  {
    forall i | 0 <= i < |t.rows|
      ensures Cell(RelFreq(t).value.rows[i], "total_count") == Count(RowTotal(t.rows[i]))
      ensures forall k :: 0 <= k < |CellTypes| ==>
        Cell(RelFreq(t).value.rows[i], PercentageColumns[k]) == Share(Cell(t.rows[i], CellTypes[k]), RowTotal(t.rows[i]))
      ensures forall c :: c in t.columns && c in MetadataColumns && c != "total_count" ==>
        Cell(RelFreq(t).value.rows[i], c) == Cell(t.rows[i], c)
    {
      RelFreqRowAt(t, i);
    }
  }

  /** What a derived row holds: its kept metadata cells and the five shares of its `total_count`. */
  lemma DerivedRowCells(src: Row, keep: seq<string>)
    requires forall c :: c in keep ==> c in MetadataColumns
    ensures forall c :: c in keep ==> Cell(DerivedRow(src, keep), c) == Cell(src, c)
    ensures forall k :: 0 <= k < |CellTypes| ==>
      Cell(DerivedRow(src, keep), PercentageColumns[k])
        == Share(Cell(src, CellTypes[k]), CountOf(Cell(src, "total_count")))
  {
    var pc := PercentageCells(src);
    var total := CountOf(Cell(src, "total_count"));
    PercentageCellsAt(src);
    ColumnNameLengths();
    forall c | c in keep ensures c !in pc {
      assert |c| <= 11;
    }
  }

  /** The five share columns have distinct names, all longer than any metadata column name. */
  lemma ColumnNameLengths()
    ensures forall j, k :: 0 <= j < k < |PercentageColumns| ==> PercentageColumns[j] != PercentageColumns[k]
    ensures forall k :: 0 <= k < |PercentageColumns| ==> |PercentageColumns[k]| >= 17
    ensures forall c :: c in MetadataColumns ==> |c| <= 11
    ensures forall k :: 0 <= k < |CellTypes| ==> |CellTypes[k]| <= 10
  {
    PercentageColumnLengths(PercentageColumns);
    MetadataColumnLengths(MetadataColumns);
    CellTypeLengths(CellTypes);
  }

  lemma CellTypeLengths(c: seq<string>)
    requires c == CellTypes
    ensures forall k :: 0 <= k < |c| ==> |c[k]| <= 10
  {
    assert |c| == 5;
    assert |c[0]| == 6 && |c[1]| == 10 && |c[2]| == 10 && |c[3]| == 7 && |c[4]| == 8;
  }

  lemma PercentageColumnLengths(p: seq<string>)
    requires p == PercentageColumns
    ensures forall j, k :: 0 <= j < k < |p| ==> p[j] != p[k]
    ensures forall k :: 0 <= k < |p| ==> |p[k]| >= 17
  {
    assert |p| == 5;
    assert |p[0]| == 17 && |p[1]| == 21 && |p[2]| == 21 && |p[3]| == 18 && |p[4]| == 19;
    assert p[1][2] == '8' && p[2][2] == '4';
  }

  lemma MetadataColumnLengths(m: seq<string>)
    requires m == MetadataColumns
    ensures forall c :: c in m ==> |c| <= 11
  {
    assert |m| == 8;
    assert |m[0]| == 6 && |m[1]| == 11 && |m[2]| == 10 && |m[3]| == 5;
    assert |m[4]| == 8 && |m[5]| == 9 && |m[6]| == 11 && |m[7]| == 9;
  }

  /** The share row has exactly the five share columns, each holding its count's share. */
  lemma PercentageCellsAt(src: Row)
    ensures forall c :: c in PercentageCells(src) <==> c in PercentageColumns
    ensures forall k :: 0 <= k < |CellTypes| ==>
      Cell(PercentageCells(src), PercentageColumns[k])
        == Share(Cell(src, CellTypes[k]), CountOf(Cell(src, "total_count")))
  {
    PercentageCellsDomain(src);
    forall k | 0 <= k < |CellTypes|
      ensures Cell(PercentageCells(src), PercentageColumns[k])
        == Share(Cell(src, CellTypes[k]), CountOf(Cell(src, "total_count")))
    {
      PercentageCellAt(src, k);
    }
  }

  lemma PercentageCellsDomain(src: Row)
    ensures forall c :: c in PercentageCells(src) <==> c in PercentageColumns
  {
    var p := PercentageColumns;
    var m := PercentageCells(src);
    PercentageNamesAgree();
    assert forall k :: 0 <= k < |CellTypes| ==> PercentageName(CellTypes[k]) == p[k];
    forall c | c in m ensures c in p {
      var k :| 0 <= k < |CellTypes| && PercentageName(CellTypes[k]) == c;
    }
    forall c | c in p ensures c in m {
      var k :| 0 <= k < |p| && p[k] == c;
      assert PercentageName(CellTypes[k]) in m;
    }
  }

  lemma PercentageCellAt(src: Row, k: nat)
    requires k < |CellTypes|
    ensures Cell(PercentageCells(src), PercentageColumns[k])
      == Share(Cell(src, CellTypes[k]), CountOf(Cell(src, "total_count")))
  {
    var p := PercentageColumns;
    var m := PercentageCells(src);
    PercentageNamesAgree();
    assert PercentageName(CellTypes[k]) == p[k];
    ColumnNameLengths();
    assert p[k] in m;
  }

  // ---------------------------------------------------------------------------
  // Shares of a row

  /** A share cell as it enters a sum that skips NaN: the ratio, or 0 for NaN. */
  function RatioOrZero(v: Value): real {
    if v.Ratio? then v.q else 0.0
  }

  function ShareSum(r: Row, names: seq<string>, total: nat): real {
    if names == [] then 0.0
    else RatioOrZero(Share(Cell(r, names[0]), total)) + ShareSum(r, names[1..], total)
  }

  /** A share times the total gives back the count. */
  lemma ShareTimesTotal(count: nat, total: nat)
    requires total > 0
    ensures var v := Share(Count(count), total); v.Ratio? && v.q * total as real == count as real
  {
  }

  lemma DivAtMostOne(c: real, t: real)
    requires 0.0 <= c <= t && t > 0.0
    ensures 0.0 <= c / t <= 1.0
  {
  }

  lemma DivSelf(t: real)
    requires t > 0.0
    ensures t / t == 1.0
  {
  }

  lemma DivAdd(a: real, b: real, t: real)
    requires t > 0.0
    ensures a / t + b / t == (a + b) / t
  {
  }

  /** The shares of a list of counts add up to their summed count over the total. */
  lemma {:induction false} ShareSumIsQuotient(r: Row, names: seq<string>, total: nat)
    requires total > 0
    ensures ShareSum(r, names, total) == SumCounts(r, names) as real / total as real
  {
    if names != [] {
      ShareSumIsQuotient(r, names[1..], total);
      var c := CountOf(Cell(r, names[0]));
      var rest := SumCounts(r, names[1..]);
      assert RatioOrZero(Share(Cell(r, names[0]), total)) == c as real / total as real;
      DivAdd(c as real, rest as real, total as real);
    }
  }

  /** Each count is at most the row total. */
  lemma {:induction false} CountAtMostSum(r: Row, names: seq<string>, k: nat)
    requires k < |names|
    ensures CountOf(Cell(r, names[k])) <= SumCounts(r, names)
  {
    if k > 0 {
      CountAtMostSum(r, names[1..], k - 1);
    }
  }

  /** A sum of counts is zero exactly when each of its counts is. */
  lemma {:induction false} SumCountsZero(r: Row, names: seq<string>)
    ensures SumCounts(r, names) == 0 <==> forall k :: 0 <= k < |names| ==> CountOf(Cell(r, names[k])) == 0
  {
    if names != [] {
      SumCountsZero(r, names[1..]);
      assert forall k :: 1 <= k < |names| ==> names[k] == names[1..][k - 1];
    }
  }

  /** `total_count` is the sum of the five counts of the row. */
  lemma RowTotalIsSum(r: Row)
    ensures RowTotal(r) == CountOf(Cell(r, "b_cell")) + CountOf(Cell(r, "cd8_t_cell"))
      + CountOf(Cell(r, "cd4_t_cell")) + CountOf(Cell(r, "nk_cell")) + CountOf(Cell(r, "monocyte"))
  {
    var n := CellTypes;
    var n1, n2, n3, n4 := n[1..], n[2..], n[3..], n[4..];
    assert n1[1..] == n2 && n2[1..] == n3 && n3[1..] == n4 && n4[1..] == [];
    assert SumCounts(r, n4) == CountOf(Cell(r, "monocyte"));
    assert SumCounts(r, n3) == CountOf(Cell(r, "nk_cell")) + SumCounts(r, n4);
    assert SumCounts(r, n2) == CountOf(Cell(r, "cd4_t_cell")) + SumCounts(r, n3);
    assert SumCounts(r, n1) == CountOf(Cell(r, "cd8_t_cell")) + SumCounts(r, n2);
  }

  /**
   * For a row with a positive total, every present count's share lies in
   * [0, 1] and the shares (a missing count contributing none) add up to 1.
   */
  lemma RowSharesSumToOne(r: Row)
    requires RowTotal(r) > 0
    ensures ShareSum(r, CellTypes, RowTotal(r)) == 1.0
    ensures forall k :: 0 <= k < |CellTypes| && Cell(r, CellTypes[k]).Count? ==>
      var v := Share(Cell(r, CellTypes[k]), RowTotal(r));
      v.Ratio? && 0.0 <= v.q <= 1.0
  {
    var t := RowTotal(r);
    ShareSumIsQuotient(r, CellTypes, t);
    DivSelf(t as real);
    forall k | 0 <= k < |CellTypes| && Cell(r, CellTypes[k]).Count?
      ensures var v := Share(Cell(r, CellTypes[k]), t); v.Ratio? && 0.0 <= v.q <= 1.0
    {
      CountAtMostSum(r, CellTypes, k);
      DivAtMostOne(Cell(r, CellTypes[k]).n as real, t as real);
    }
  }

  /** For a row whose total is zero every share is undefined (NaN), never 0. */
  lemma ZeroTotalUndefined(t: Table, i: nat)
    requires RelFreq(t).Success? && i < |t.rows|
    requires RowTotal(t.rows[i]) == 0
    ensures forall k :: 0 <= k < |PercentageColumns| ==> Cell(RelFreq(t).value.rows[i], PercentageColumns[k]) == Missing
  {
    RelFreqRowAt(t, i);
  }

  /** The share sum over the five counted columns, written out. */
  lemma ShareSumFive(r: Row, total: nat)
    ensures ShareSum(r, CellTypes, total)
      == RatioOrZero(Share(Cell(r, CellTypes[0]), total)) + RatioOrZero(Share(Cell(r, CellTypes[1]), total))
       + RatioOrZero(Share(Cell(r, CellTypes[2]), total)) + RatioOrZero(Share(Cell(r, CellTypes[3]), total))
       + RatioOrZero(Share(Cell(r, CellTypes[4]), total))
  {
    var n := CellTypes;
    var n1, n2, n3, n4 := n[1..], n[2..], n[3..], n[4..];
    assert n1[1..] == n2 && n2[1..] == n3 && n3[1..] == n4 && n4[1..] == [];
    assert n1[0] == n[1] && n2[0] == n[2] && n3[0] == n[3] && n4[0] == n[4];
    assert ShareSum(r, n4, total) == RatioOrZero(Share(Cell(r, n[4]), total));
    assert ShareSum(r, n3, total) == RatioOrZero(Share(Cell(r, n[3]), total)) + ShareSum(r, n4, total);
    assert ShareSum(r, n2, total) == RatioOrZero(Share(Cell(r, n[2]), total)) + ShareSum(r, n3, total);
    assert ShareSum(r, n1, total) == RatioOrZero(Share(Cell(r, n[1]), total)) + ShareSum(r, n2, total);
  }

  /**
   * In the derived table, a row with a positive total has five share cells
   * in [0, 1] whose values add up exactly to 1.
   */
  lemma PercentagesSumToOne(t: Table, i: nat)
    requires RelFreq(t).Success? && i < |t.rows|
    requires RowTotal(t.rows[i]) > 0
    ensures var o := RelFreq(t).value.rows[i];
      RatioOrZero(Cell(o, PercentageColumns[0])) + RatioOrZero(Cell(o, PercentageColumns[1]))
        + RatioOrZero(Cell(o, PercentageColumns[2])) + RatioOrZero(Cell(o, PercentageColumns[3]))
        + RatioOrZero(Cell(o, PercentageColumns[4])) == 1.0
    ensures forall k :: 0 <= k < |PercentageColumns| ==>
      var v := Cell(RelFreq(t).value.rows[i], PercentageColumns[k]);
      v.Ratio? ==> 0.0 <= v.q <= 1.0
  {
    RelFreqRowAt(t, i);
    ShareCellsSumToOne(RelFreq(t).value.rows[i], t.rows[i]);
  }

  /** The same for any row whose share cells are those of a source row with a positive total. */
  lemma ShareCellsSumToOne(o: Row, r: Row)
    requires RowTotal(r) > 0
    requires forall k :: 0 <= k < |CellTypes| ==> Cell(o, PercentageColumns[k]) == Share(Cell(r, CellTypes[k]), RowTotal(r))
    ensures RatioOrZero(Cell(o, PercentageColumns[0])) + RatioOrZero(Cell(o, PercentageColumns[1]))
        + RatioOrZero(Cell(o, PercentageColumns[2])) + RatioOrZero(Cell(o, PercentageColumns[3]))
        + RatioOrZero(Cell(o, PercentageColumns[4])) == 1.0
    ensures forall k :: 0 <= k < |PercentageColumns| ==>
      var v := Cell(o, PercentageColumns[k]);
      v.Ratio? ==> 0.0 <= v.q <= 1.0
  {
    RowSharesSumToOne(r);
    ShareSumFive(r, RowTotal(r));
  }
}
