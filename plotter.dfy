/**
 * `plot_rf_boxplots` without the drawing: the column checks, the row
 * selection, the split of each share column into responder and
 * non-responder values, and the titles and output path of the figure.
 */
module Plotter {
  import opened Wrappers
  import opened Strings
  import opened Sequences
  import opened Tables
  import opened Frequencies
  import opened Writer

  /** One subplot: its title and the two value lists it compares. */
  datatype Panel = Panel(title: string, responders: seq<Value>, nonResponders: seq<Value>)

  /** The figure as saved: five panels, the overall title and the image path. */
  datatype Figure = Figure(panels: seq<Panel>, supTitle: string, path: string)

  predicate IsTr1(r: Row) { LowerIs(Cell(r, "treatment"), "tr1") }

  predicate IsPbmc(r: Row) { LowerIs(Cell(r, "sample_type"), "pbmc") }

  predicate IsMelanoma(r: Row) { LowerIs(Cell(r, "diagnosis"), "melanoma") }

  predicate IsResponder(r: Row) { LowerIs(Cell(r, "response"), "y") }

  predicate IsNonResponder(r: Row) { LowerIs(Cell(r, "response"), "n") }

  /** The row condition of the plot, given the table's columns. */
  predicate PlotKeep(cols: seq<string>, r: Row) {
    && IsTr1(r)
    && ("sample_type" in cols ==> IsPbmc(r))
    && ("diagnosis" in cols ==> IsMelanoma(r))
  }

  function PlotKeepIn(cols: seq<string>): Row -> bool {
    r => PlotKeep(cols, r)
  }

  /** The rows `plot_data` holds after the three conditional filters. */
  function PlotRows(t: Table): (r: seq<Row>)
    ensures |r| <= |t.rows|
    ensures forall i :: 0 <= i < |r| ==> r[i] in t.rows && PlotKeep(t.columns, r[i])
  {
    var tr1 := Filter(t.rows, IsTr1);
    var pbmc := if "sample_type" in t.columns then Filter(tr1, IsPbmc) else tr1;
    if "diagnosis" in t.columns then Filter(pbmc, IsMelanoma) else pbmc
  }

  /** The share columns the table lacks, in the plotter's order. */
  function MissingShareColumns(cols: seq<string>): (m: seq<string>)
    ensures forall c :: c in m <==> c in PercentageColumns && c !in cols
  {
    FilterExactly(PercentageColumns, c => c !in cols);
    Filter(PercentageColumns, c => c !in cols)
  }

  /** No share column is reported missing exactly when all five are present. */
  lemma NoMissingShareColumns(cols: seq<string>)
    ensures MissingShareColumns(cols) == [] <==> forall c :: c in PercentageColumns ==> c in cols
  {
    var m := MissingShareColumns(cols);
    if m != [] {
      assert m[0] in m;
    }
  }

  /** `cell.replace('_percentage','').replace('_',' ').title()`. */
  function SubplotTitle(cell: string): (r: string)
    ensures |r| <= |cell|
    ensures forall i :: 0 <= i < |r| ==> r[i] != '_'
  {
    var stripped := ReplaceAll(cell, "_percentage", "");
    var spaced := ReplaceAll(stripped, ['_'], [' ']);
    ReplaceChar(stripped, '_', ' ');
    assert forall i :: 0 <= i < |spaced| ==> spaced[i] != '_';
    assert "_" == ['_'] && " " == [' '];
    TitleKeepsOut(spaced, '_');
    Title(spaced)
  }

  /** The overall title; the melanoma note appears exactly when the table has a diagnosis column. */
  function SupTitle(cols: seq<string>): (r: string)
    ensures EndsWith(r, " (Melanoma)") <==> "diagnosis" in cols
  {
    var head := "Relative Frequencies of Immune Cell Populations\n(Treatment: tr1, PBMC samples)";
    if "diagnosis" in cols then
      assert (head + " (Melanoma)")[|head|..] == " (Melanoma)";
      head + " (Melanoma)"
    else
      assert head[|head| - 11..] != " (Melanoma)" by {
        assert head[|head| - 11..][1] == 'C';
      }
      head
  }

  /** The panel for one share column. */
  function PanelFor(rows: seq<Row>, cell: string): (p: Panel)
    ensures p.title == SubplotTitle(cell)
    ensures |p.responders| + |p.nonResponders| <= |rows|
    ensures forall v :: v in p.responders ==> exists row :: row in rows && IsResponder(row) && v == Cell(row, cell)
    ensures forall v :: v in p.nonResponders ==> exists row :: row in rows && IsNonResponder(row) && v == Cell(row, cell)
  {
    FilterDisjointLengths(rows, IsResponder, IsNonResponder);
    Panel(SubplotTitle(cell),
          ColumnValues(Filter(rows, IsResponder), cell),
          ColumnValues(Filter(rows, IsNonResponder), cell))
  }

  /** The loop over the share columns: one panel per column, in order. */
  method BuildPanels(plotData: seq<Row>) returns (panels: seq<Panel>)
    ensures |panels| == |PercentageColumns|
    ensures forall k :: 0 <= k < |PercentageColumns| ==> panels[k] == PanelFor(plotData, PercentageColumns[k])
  {
    panels := [];
    for k := 0 to |PercentageColumns|
      invariant |panels| == k
      invariant forall j :: 0 <= j < k ==> panels[j] == PanelFor(plotData, PercentageColumns[j])
    {
      var cell := PercentageColumns[k];
      var responders := ColumnValues(Filter(plotData, IsResponder), cell);
      var nonResponders := ColumnValues(Filter(plotData, IsNonResponder), cell);
      panels := panels + [Panel(SubplotTitle(cell), responders, nonResponders)];
    }
  }

  /**
   * `plot_rf_boxplots(data, output_filename)`: raises when `treatment` or
   * `response` is absent, then when a share column is absent; otherwise
   * builds one panel per share column, in order.
   */
  method PlotRfBoxplots(t: Table, outputFilename: string) returns (r: Result<Figure, Error>)
    ensures "treatment" !in t.columns || "response" !in t.columns ==> r == Failure(PlotNeedsTreatmentAndResponse)
    ensures "treatment" in t.columns && "response" in t.columns && MissingShareColumns(t.columns) != [] ==>
      r == Failure(MissingCellColumns(MissingShareColumns(t.columns)))
    ensures r.Success? <==>
      "treatment" in t.columns && "response" in t.columns && forall c :: c in PercentageColumns ==> c in t.columns
    ensures r.Success? ==>
      && |r.value.panels| == |PercentageColumns|
      && (forall k :: 0 <= k < |PercentageColumns| ==> r.value.panels[k] == PanelFor(PlotRows(t), PercentageColumns[k]))
      && r.value.supTitle == SupTitle(t.columns)
      && r.value.path == Join(OutputDir, outputFilename)
    ensures r.Success? && (outputFilename == [] || outputFilename[0] != '/') ==>
      r.value.path == OutputDir + "/" + outputFilename
  {
    if "treatment" !in t.columns || "response" !in t.columns {
      return Failure(PlotNeedsTreatmentAndResponse);
    }
    var plotData := Filter(t.rows, IsTr1);
    if "sample_type" in t.columns {
      plotData := Filter(plotData, IsPbmc);
    }
    if "diagnosis" in t.columns {
      plotData := Filter(plotData, IsMelanoma);
    }
    assert plotData == PlotRows(t);
    var missing := MissingShareColumns(t.columns);
    NoMissingShareColumns(t.columns);
    if missing != [] {
      return Failure(MissingCellColumns(missing));
    }
    var panels := BuildPanels(plotData);
    if outputFilename == [] || outputFilename[0] != '/' {
      JoinRelative(outputFilename);
    }
    r := Success(Figure(panels, SupTitle(t.columns), Join(OutputDir, outputFilename)));
  }

  // ---------------------------------------------------------------------------
  // Properties of the selection

  /**
   * The plotted rows are exactly the rows whose lower-cased treatment is
   * `tr1`, whose sample type is `pbmc` if the table has that column, and
   * whose diagnosis is `melanoma` if the table has that column, in row order.
   */
  lemma PlotRowsExactly(t: Table)
    ensures PlotRows(t) == Filter(t.rows, PlotKeepIn(t.columns))
    ensures var idx := KeptIndices(t.rows, PlotKeepIn(t.columns));
      && |PlotRows(t)| == |idx|
      && StrictlyIncreasing(idx)
      && (forall k :: 0 <= k < |idx| ==> idx[k] < |t.rows| && PlotRows(t)[k] == t.rows[idx[k]])
      && (forall i :: 0 <= i < |t.rows| ==> (i in idx <==> PlotKeep(t.columns, t.rows[i])))
  {
    var cols := t.columns;
    var st, dg := "sample_type" in cols, "diagnosis" in cols;
    var tr1Pbmc: Row -> bool := r => IsTr1(r) && IsPbmc(r);
    if st {
      FilterThenFilter(t.rows, IsTr1, IsPbmc, tr1Pbmc);
      if dg {
        FilterThenFilter(t.rows, tr1Pbmc, IsMelanoma, PlotKeepIn(cols));
      } else {
        FilterSamePredicate(t.rows, tr1Pbmc, PlotKeepIn(cols));
      }
    } else if dg {
      FilterThenFilter(t.rows, IsTr1, IsMelanoma, PlotKeepIn(cols));
    } else {
      FilterSamePredicate(t.rows, IsTr1, PlotKeepIn(cols));
    }
    FilterExactly(t.rows, PlotKeepIn(cols));
  }

  /**
   * Responders and non-responders are disjoint selections of the plotted
   * rows: a row is a responder exactly when its lower-cased response is `y`
   * and a non-responder exactly when it is `n`, no row is in both, a row whose response is neither `y` nor `n` is
   * in neither, and each panel's list holds the share of the selected rows in
   * row order.
   */
  lemma GroupsArePartition(rows: seq<Row>, cell: string)
    ensures var ys, ns := KeptIndices(rows, IsResponder), KeptIndices(rows, IsNonResponder);
      && (forall i :: 0 <= i < |rows| ==> (i in ys <==> IsResponder(rows[i])) && (i in ns <==> IsNonResponder(rows[i])))
      && (forall i :: 0 <= i < |rows| ==> !(i in ys && i in ns))
      && (forall i :: 0 <= i < |rows| && !IsResponder(rows[i]) && !IsNonResponder(rows[i]) ==> i !in ys && i !in ns)
      && StrictlyIncreasing(ys) && StrictlyIncreasing(ns)
      && |PanelFor(rows, cell).responders| == |ys|
      && (forall k :: 0 <= k < |ys| ==> ys[k] < |rows| && PanelFor(rows, cell).responders[k] == Cell(rows[ys[k]], cell))
      && |PanelFor(rows, cell).nonResponders| == |ns|
      && (forall k :: 0 <= k < |ns| ==> ns[k] < |rows| && PanelFor(rows, cell).nonResponders[k] == Cell(rows[ns[k]], cell))
  {
    FilterExactly(rows, IsResponder);
    FilterExactly(rows, IsNonResponder);
  }

  /** A table without any `tr1` row still plots, with every group empty. */
  lemma NoTr1RowsGivesEmptyGroups(t: Table, cell: string)
    requires forall i :: 0 <= i < |t.rows| ==> !IsTr1(t.rows[i])
    ensures PlotRows(t) == []
    ensures PanelFor(PlotRows(t), cell).responders == [] && PanelFor(PlotRows(t), cell).nonResponders == []
  {
    PlotRowsExactly(t);
    FilterNoneKept(t.rows, PlotKeepIn(t.columns));
  }

  /** The five subplot titles. */
  lemma SubplotTitles()
    ensures SubplotTitle(PercentageColumns[0]) == "B Cell"
    ensures SubplotTitle(PercentageColumns[1]) == "Cd8 T Cell"
    ensures SubplotTitle(PercentageColumns[2]) == "Cd4 T Cell"
    ensures SubplotTitle(PercentageColumns[3]) == "Nk Cell"
    ensures SubplotTitle(PercentageColumns[4]) == "Monocyte"
  {
    BCellTitle();
    Cd8TCellTitle();
    Cd4TCellTitle();
    NkCellTitle();
    MonocyteTitle();
  }

  lemma BCellTitle()
    ensures SubplotTitle(PercentageColumns[0]) == "B Cell"
  {
    BCellTitleBase(CellTypes[0], "b cell");
    BCellTitleCase("b cell");
    SubplotTitleOf(0, "b cell", "B Cell");
  }

  lemma BCellTitleBase(base: string, spaced: string)
    requires base == "b_cell" && spaced == "b cell"
    ensures NoUnderscoreBeforeP(base) && SpacedForm(base, spaced)
  {
    assert base[0] == 'b' && base[1] == '_' && base[2] == 'c' && base[3] == 'e' && base[4] == 'l' && base[5] == 'l';
    assert spaced[0] == 'b' && spaced[1] == ' ' && spaced[2] == 'c' && spaced[3] == 'e' && spaced[4] == 'l' && spaced[5] == 'l';
  }

  lemma BCellTitleCase(s: string)
    requires s == "b cell"
    ensures Title(s) == "B Cell"
  {
    assert s[0] == 'b' && s[1] == ' ' && s[2] == 'c' && s[3] == 'e' && s[4] == 'l' && s[5] == 'l';
    var r := Title(s);
    assert r[0] == 'B';
    assert r[1] == ' ';
    assert r[2] == 'C';
    assert r[3] == 'e';
    assert r[4] == 'l';
    assert r[5] == 'l';
  }

  lemma Cd8TCellTitle()
    ensures SubplotTitle(PercentageColumns[1]) == "Cd8 T Cell"
  {
    Cd8TCellTitleBase(CellTypes[1], "cd8 t cell");
    Cd8TCellTitleCase("cd8 t cell");
    SubplotTitleOf(1, "cd8 t cell", "Cd8 T Cell");
  }

  lemma Cd8TCellTitleBase(base: string, spaced: string)
    requires base == "cd8_t_cell" && spaced == "cd8 t cell"
    ensures NoUnderscoreBeforeP(base) && SpacedForm(base, spaced)
  {
    assert base[0] == 'c' && base[1] == 'd' && base[2] == '8' && base[3] == '_' && base[4] == 't' && base[5] == '_' && base[6] == 'c' && base[7] == 'e' && base[8] == 'l' && base[9] == 'l';
    assert spaced[0] == 'c' && spaced[1] == 'd' && spaced[2] == '8' && spaced[3] == ' ' && spaced[4] == 't' && spaced[5] == ' ' && spaced[6] == 'c' && spaced[7] == 'e' && spaced[8] == 'l' && spaced[9] == 'l';
  }

  lemma Cd8TCellTitleCase(s: string)
    requires s == "cd8 t cell"
    ensures Title(s) == "Cd8 T Cell"
  {
    assert s[0] == 'c' && s[1] == 'd' && s[2] == '8' && s[3] == ' ' && s[4] == 't' && s[5] == ' ' && s[6] == 'c' && s[7] == 'e' && s[8] == 'l' && s[9] == 'l';
    var r := Title(s);
    assert r[0] == 'C';
    assert r[1] == 'd';
    assert r[2] == '8';
    assert r[3] == ' ';
    assert r[4] == 'T';
    assert r[5] == ' ';
    assert r[6] == 'C';
    assert r[7] == 'e';
    assert r[8] == 'l';
    assert r[9] == 'l';
  }

  lemma Cd4TCellTitle()
    ensures SubplotTitle(PercentageColumns[2]) == "Cd4 T Cell"
  {
    Cd4TCellTitleBase(CellTypes[2], "cd4 t cell");
    Cd4TCellTitleCase("cd4 t cell");
    SubplotTitleOf(2, "cd4 t cell", "Cd4 T Cell");
  }

  lemma Cd4TCellTitleBase(base: string, spaced: string)
    requires base == "cd4_t_cell" && spaced == "cd4 t cell"
    ensures NoUnderscoreBeforeP(base) && SpacedForm(base, spaced)
  {
    assert base[0] == 'c' && base[1] == 'd' && base[2] == '4' && base[3] == '_' && base[4] == 't' && base[5] == '_' && base[6] == 'c' && base[7] == 'e' && base[8] == 'l' && base[9] == 'l';
    assert spaced[0] == 'c' && spaced[1] == 'd' && spaced[2] == '4' && spaced[3] == ' ' && spaced[4] == 't' && spaced[5] == ' ' && spaced[6] == 'c' && spaced[7] == 'e' && spaced[8] == 'l' && spaced[9] == 'l';
  }

  lemma Cd4TCellTitleCase(s: string)
    requires s == "cd4 t cell"
    ensures Title(s) == "Cd4 T Cell"
  {
    assert s[0] == 'c' && s[1] == 'd' && s[2] == '4' && s[3] == ' ' && s[4] == 't' && s[5] == ' ' && s[6] == 'c' && s[7] == 'e' && s[8] == 'l' && s[9] == 'l';
    var r := Title(s);
    assert r[0] == 'C';
    assert r[1] == 'd';
    assert r[2] == '4';
    assert r[3] == ' ';
    assert r[4] == 'T';
    assert r[5] == ' ';
    assert r[6] == 'C';
    assert r[7] == 'e';
    assert r[8] == 'l';
    assert r[9] == 'l';
  }

  lemma NkCellTitle()
    ensures SubplotTitle(PercentageColumns[3]) == "Nk Cell"
  {
    NkCellTitleBase(CellTypes[3], "nk cell");
    NkCellTitleCase("nk cell");
    SubplotTitleOf(3, "nk cell", "Nk Cell");
  }

  lemma NkCellTitleBase(base: string, spaced: string)
    requires base == "nk_cell" && spaced == "nk cell"
    ensures NoUnderscoreBeforeP(base) && SpacedForm(base, spaced)
  {
    assert base[0] == 'n' && base[1] == 'k' && base[2] == '_' && base[3] == 'c' && base[4] == 'e' && base[5] == 'l' && base[6] == 'l';
    assert spaced[0] == 'n' && spaced[1] == 'k' && spaced[2] == ' ' && spaced[3] == 'c' && spaced[4] == 'e' && spaced[5] == 'l' && spaced[6] == 'l';
  }

  lemma NkCellTitleCase(s: string)
    requires s == "nk cell"
    ensures Title(s) == "Nk Cell"
  {
    assert s[0] == 'n' && s[1] == 'k' && s[2] == ' ' && s[3] == 'c' && s[4] == 'e' && s[5] == 'l' && s[6] == 'l';
    var r := Title(s);
    assert r[0] == 'N';
    assert r[1] == 'k';
    assert r[2] == ' ';
    assert r[3] == 'C';
    assert r[4] == 'e';
    assert r[5] == 'l';
    assert r[6] == 'l';
  }

  lemma MonocyteTitle()
    ensures SubplotTitle(PercentageColumns[4]) == "Monocyte"
  {
    MonocyteTitleBase(CellTypes[4], "monocyte");
    MonocyteTitleCase("monocyte");
    SubplotTitleOf(4, "monocyte", "Monocyte");
  }

  lemma MonocyteTitleBase(base: string, spaced: string)
    requires base == "monocyte" && spaced == "monocyte"
    ensures NoUnderscoreBeforeP(base) && SpacedForm(base, spaced)
  {
    assert base[0] == 'm' && base[1] == 'o' && base[2] == 'n' && base[3] == 'o' && base[4] == 'c' && base[5] == 'y' && base[6] == 't' && base[7] == 'e';
    assert spaced[0] == 'm' && spaced[1] == 'o' && spaced[2] == 'n' && spaced[3] == 'o' && spaced[4] == 'c' && spaced[5] == 'y' && spaced[6] == 't' && spaced[7] == 'e';
  }

  lemma MonocyteTitleCase(s: string)
    requires s == "monocyte"
    ensures Title(s) == "Monocyte"
  {
    assert s[0] == 'm' && s[1] == 'o' && s[2] == 'n' && s[3] == 'o' && s[4] == 'c' && s[5] == 'y' && s[6] == 't' && s[7] == 'e';
    var r := Title(s);
    assert r[0] == 'M';
    assert r[1] == 'o';
    assert r[2] == 'n';
    assert r[3] == 'o';
    assert r[4] == 'c';
    assert r[5] == 'y';
    assert r[6] == 't';
    assert r[7] == 'e';
  }

  /** Every underscore of `base` is followed by a character other than `p`, so `_percentage` cannot start inside it. */
  predicate NoUnderscoreBeforeP(base: string) {
    forall i :: 0 <= i < |base| && base[i] == '_' ==> i + 1 < |base| && base[i + 1] != 'p'
  }

  /** `spaced` is `base` with each underscore turned into a space. */
  predicate SpacedForm(base: string, spaced: string) {
    |spaced| == |base| && forall i :: 0 <= i < |base| ==> spaced[i] == if base[i] == '_' then ' ' else base[i]
  }

  /** One subplot title, from the spaced form of its cell name and that form's title case. */
  lemma SubplotTitleOf(k: nat, spaced: string, title: string)
    requires k < |CellTypes|
    requires NoUnderscoreBeforeP(CellTypes[k]) && SpacedForm(CellTypes[k], spaced)
    requires Title(spaced) == title
    ensures SubplotTitle(PercentageColumns[k]) == title
  {
    PercentageNamesAgree();
    assert PercentageName(CellTypes[k]) == PercentageColumns[k];
    TitleOf(CellTypes[k], spaced);
  }

  /** The title of `base_percentage` is the title of `base` with its underscores turned into spaces. */
  lemma TitleOf(base: string, spaced: string)
    requires NoUnderscoreBeforeP(base) && SpacedForm(base, spaced)
    ensures SubplotTitle(PercentageName(base)) == Title(spaced)
  {
    ReplaceTrailing(base, "_percentage");
    ReplaceChar(base, '_', ' ');
    assert ReplaceAll(base, "_", " ") == spaced;
  }
}
