/**
 * The record table the script passes between its stages (a pandas
 * DataFrame): an ordered list of column names and a sequence of rows, each
 * row mapping column names to cell values.
 */
module Tables {
  import opened Strings

  /**
   * A cell: missing (pandas NaN / None), text, a non-negative count, or an
   * exact ratio (the floating-point percentages of the derived table).
   */
  datatype Value = Missing | Text(s: string) | Count(n: nat) | Ratio(q: real)

  type Row = map<string, Value>

  datatype Table = Table(columns: seq<string>, rows: seq<Row>)

  /** The value of column `c` in a row; a row without the key reads as missing. */
  function Cell(r: Row, c: string): Value {
    if c in r then r[c] else Missing
  }

  /**
   * `series.str.lower() == lit` for one cell: only a text cell can compare
   * equal; a missing or non-text cell lower-cases to NaN, which equals nothing.
   */
  predicate LowerIs(v: Value, lit: string) {
    v.Text? && Lower(v.s) == lit
  }

  /** The column `c` of a list of rows, in row order (`rows[c]` as a series). */
  function ColumnValues(rows: seq<Row>, c: string): (r: seq<Value>)
    ensures |r| == |rows|
    ensures forall i :: 0 <= i < |rows| ==> r[i] == Cell(rows[i], c)
  {
    seq(|rows|, i requires 0 <= i < |rows| => Cell(rows[i], c))
  }

  /** `data[name] = values`: overwrite the column if present, else append it. */
  function WithColumn(t: Table, name: string, values: seq<Value>): (r: Table)
    requires |values| == |t.rows|
    ensures name in r.columns
    ensures forall c :: c in r.columns <==> c in t.columns || c == name
    ensures name in t.columns ==> r.columns == t.columns
    ensures name !in t.columns ==> r.columns == t.columns + [name]
    ensures |r.rows| == |t.rows|
    ensures forall i :: 0 <= i < |r.rows| ==> Cell(r.rows[i], name) == values[i]
    ensures forall i, c :: 0 <= i < |r.rows| && c != name ==> Cell(r.rows[i], c) == Cell(t.rows[i], c)
  {
    var cols := if name in t.columns then t.columns else t.columns + [name];
    Table(cols, seq(|t.rows|, i requires 0 <= i < |t.rows| => t.rows[i][name := values[i]]))
  }

  /** A DataFrame object, whose columns a caller's assignment changes in place. */
  class Frame {
    var columns: seq<string>
    var rows: seq<Row>

    function Snapshot(): Table
      reads this
    {
      Table(columns, rows)
    }

    constructor (t: Table)
      ensures Snapshot() == t
    {
      columns := t.columns;
      rows := t.rows;
    }

    /** `frame[name] = values`, one value per row by position. */
    method SetColumn(name: string, values: seq<Value>)
      requires |values| == |rows|
      modifies this
      ensures Snapshot() == WithColumn(old(Snapshot()), name, values)
    {
      var before := rows;
      if name !in columns {
        columns := columns + [name];
      }
      rows := seq(|before|, i requires 0 <= i < |before| => before[i][name := values[i]]);
    }
  }

  /** The exceptions the pipeline's stages raise. */
  datatype Error =
    | FileNotFound                        // FileNotFoundError from load_csv
    | NotCsv                              // ValueError "Filetype not csv" from load_csv
    | LoadFailed                          // RuntimeError wrapping a read failure
    | KeyError(missing: seq<string>)      // pandas column lookup of absent labels
    | PlotNeedsTreatmentAndResponse       // ValueError at the start of plotting
    | MissingCellColumns(missing: seq<string>)  // ValueError listing absent percentage columns
}
