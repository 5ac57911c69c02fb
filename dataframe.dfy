/**
 * The DataFrame class: an ordered list of column names and a list of rows,
 * changed in place by its mutators. Every method is specified by the value
 * functions of module Table.
 *
 * Rows are values here. Where the original hands this frame's row objects
 * to the constructor of a derived frame (AddColumn, Head, Tail), the
 * constructor's padding of those shared rows is written out explicitly as
 * an update of this frame's `data`.
 */
module Frame {
  import opened Wrappers
  import opened PyList
  import opened Table

  /** The number of rows the text display shows (`data[:50]`). */
  const DisplayRows: nat := 50

  /** `w` is the display width of column `c` with header `header` over the
      displayed rows `shown`: the largest of the header's length and the
      lengths of the column's cells. */
  ghost predicate IsColumnWidth(w: nat, header: string, shown: seq<Row>, c: nat)
  {
    && w >= |header|
    && (forall i :: 0 <= i < |shown| ==> c < |shown[i]| && w >= |shown[i][c]|)
    && (w == |header| || exists i :: 0 <= i < |shown| && c < |shown[i]| && w == |shown[i][c]|)
  }

  class DataFrame {
    var columns: seq<string>
    var data: seq<Row>

    /** Keeps `columns`, then extends every row shorter than `columns` with
        "" cells; longer rows are kept as they are. */
    constructor (rows: seq<Row>, columns: seq<string>)
      ensures this.columns == columns
      ensures data == PadRows(rows, |columns|)
    {
      this.columns := columns;
      var d := rows;
      var i := 0;
      while i < |d|
        invariant |d| == |rows| && i <= |d|
        invariant forall k :: 0 <= k < i ==> d[k] == PadRow(rows[k], |columns|)
        invariant forall k :: i <= k < |d| ==> d[k] == rows[k]
      {
        if |d[i]| != |columns| {
          // `range` of a negative count is empty: a longer row gets nothing
          var missing := if |columns| > |d[i]| then |columns| - |d[i]| else 0;
          d := d[i := d[i] + Blanks(missing)];
        }
        i := i + 1;
      }
      data := d;
    }

    /** add_row: appends the row without any length check. */
    method AddRow(row: Row)
      modifies this
      ensures columns == old(columns)
      ensures data == old(data) + [row]
    {
      data := data + [row];
    }

    /** add_row_data: checks the row length, then the index, and only then
        replaces the row; fails without changing anything. */
    method AddRowData(index: int, row: Row) returns (r: Result<DataFrame, Error>)
      modifies this
      ensures columns == old(columns)
      ensures ReplaceRow(old(columns), old(data), index, row).Failure? ==>
        r == Failure(ReplaceRow(old(columns), old(data), index, row).error) && data == old(data)
      ensures ReplaceRow(old(columns), old(data), index, row).Success? ==>
        r == Success(this) && data == ReplaceRow(old(columns), old(data), index, row).value
    {
      if |row| != |columns| {
        return Failure(RowLengthMismatch);
      }
      if index < 0 || index >= |data| {
        return Failure(RowIndexMissing);
      }
      data := data[index := row];
      r := Success(this);
    }

    /** remove_row: subscripts `data` (negative indices allowed) and removes
        the first row equal to the one found. */
    method RemoveRow(index: int) returns (r: Result<DataFrame, Error>)
      modifies this
      ensures columns == old(columns)
      ensures RemoveRowAt(old(data), index).Failure? ==> r == Failure(IndexOutOfRange) && data == old(data)
      ensures RemoveRowAt(old(data), index).Success? ==>
        r == Success(this) && data == RemoveRowAt(old(data), index).value
    {
      var k := NormIndex(index, |data|);
      if k.None? {
        return Failure(IndexOutOfRange);
      }
      data := RemoveFirst(data, data[k.value]);
      r := Success(this);
    }

    /** add_column: a new frame over this frame's rows with the extra names
        appended. Its constructor pads the shared rows, so this frame's rows
        are widened to the new column count as well; its own names stay. */
    method AddColumn(cols: seq<string>) returns (df: DataFrame)
      modifies this
      ensures fresh(df)
      ensures columns == old(columns) && df.columns == old(columns) + cols
      ensures data == PadRows(old(data), |old(columns)| + |cols|) && df.data == data
    {
      df := new DataFrame(data, columns + cols);
      data := df.data;
    }

    /** remove_column: looks every name up first, so a missing name fails
        with nothing changed; then drops the names and the cells at their
        first-match positions, in place. */
    method RemoveColumn(cols: seq<string>) returns (r: Result<DataFrame, Error>)
      modifies this
      ensures DropColumns(old(columns), old(data), cols).Failure? ==>
        r == Failure(DropColumns(old(columns), old(data), cols).error) &&
        columns == old(columns) && data == old(data)
      ensures DropColumns(old(columns), old(data), cols).Success? ==>
        r == Success(this) && (columns, data) == DropColumns(old(columns), old(data), cols).value
    {
      var found := Lookup(columns, cols);
      if found.Failure? {
        return Failure(found.error);
      }
      var indices := found.value;
      FilterOutIsKeep(columns, cols);
      columns := FilterOut(columns, cols);
      var rows := data;
      data := seq(|rows|, i requires 0 <= i < |rows| => Keep(rows[i], indices));
      r := Success(this);
    }

    /** get_columns: a new frame whose columns are `req` and whose rows are
        the projection; the receiver is not changed (no modifies clause). */
    method GetColumns(req: seq<string>) returns (r: Result<DataFrame, Error>)
      ensures Project(columns, data, req).Failure? ==> r == Failure(Project(columns, data, req).error)
      ensures Project(columns, data, req).Success? ==>
        r.Success? && fresh(r.value) && r.value.columns == req &&
        r.value.data == Project(columns, data, req).value
    {
      match Project(columns, data, req)
      case Failure(e) =>
        r := Failure(e);
      case Success(rows) =>
        // the zipped rows are exactly as wide as `req`: nothing to pad
        PadRowsWideEnough(rows, |req|);
        var df := new DataFrame(rows, req);
        r := Success(df);
    }

    /** get_row: Python subscripting of `data`. */
    function GetRow(index: int): (r: Result<Row, Error>)
      reads this
      ensures r.Success? <==> -(|data| as int) <= index < |data|
      ensures r.Failure? ==> r.error == IndexOutOfRange
      ensures 0 <= index < |data| ==> r == Success(data[index])
      ensures -(|data| as int) <= index < 0 ==> r == Success(data[|data| + index])
    {
      match NormIndex(index, |data|)
      case None => Failure(IndexOutOfRange)
      case Some(k) => Success(data[k])
    }

    /** head: a new frame over `data[0:n]`; the constructor pads those shared
        rows, which pads the same rows of this frame. */
    method Head(n: int) returns (df: DataFrame)
      modifies this
      ensures fresh(df)
      ensures columns == old(columns) && df.columns == old(columns)
      ensures df.data == PadRows(HeadRows(old(data), n), |old(columns)|)
      ensures data == df.data + old(data)[|df.data|..]
    {
      var window := HeadRows(data, n);
      df := new DataFrame(window, columns);
      data := df.data + data[|window|..];
    }

    /** tail: a new frame over `data[-1-n:]`; the constructor pads those
        shared rows, which pads the same rows of this frame. */
    method Tail(n: int) returns (df: DataFrame)
      modifies this
      ensures fresh(df)
      ensures columns == old(columns) && df.columns == old(columns)
      ensures df.data == PadRows(TailRows(old(data), n), |old(columns)|)
      ensures |df.data| <= |old(data)| && data == old(data)[..|old(data)| - |df.data|] + df.data
    {
      var window := TailRows(data, n);
      df := new DataFrame(window, columns);
      data := data[..|data| - |window|] + df.data;
    }

    /** The column widths of the text display: for each column the longest
        of its name and its cells in the first 50 rows. With columns but no
        rows, max() of nothing raises ValueError; a displayed row too short
        for some column raises IndexError. */
    method ColumnWidths() returns (r: Result<seq<nat>, Error>)
      ensures |columns| == 0 ==> r == Success([])
      ensures |columns| > 0 && |data| == 0 ==> r == Failure(EmptyMax)
      ensures |columns| > 0 && |data| > 0 ==>
        (r.Failure? <==> exists i :: 0 <= i < |HeadRows(data, DisplayRows)| &&
                                     |HeadRows(data, DisplayRows)[i]| < |columns|)
      ensures |data| > 0 && r.Failure? ==> r.error == IndexOutOfRange
      ensures r.Success? ==> |r.value| == |columns|
      ensures r.Success? ==> forall c :: 0 <= c < |columns| ==>
        IsColumnWidth(r.value[c], columns[c], HeadRows(data, DisplayRows), c)
    {
      var shown := HeadRows(data, DisplayRows);
      if |columns| > 0 && |shown| == 0 {
        return Failure(EmptyMax);
      }
      var widths: seq<nat> := [];
      var c := 0;
      while c < |columns|
        invariant c <= |columns| && |widths| == c
        invariant forall q :: 0 <= q < c ==> IsColumnWidth(widths[q], columns[q], shown, q)
      {
        var w := |columns[c]|;
        var i := 0;
        while i < |shown|
          invariant i <= |shown|
          invariant c < |columns|
          invariant w >= |columns[c]|
          invariant forall k :: 0 <= k < i ==> c < |shown[k]| && w >= |shown[k][c]|
          invariant w == |columns[c]| || exists k :: 0 <= k < i && c < |shown[k]| && w == |shown[k][c]|
        {
          if |shown[i]| <= c {
            assert |shown[i]| < |columns|;
            return Failure(IndexOutOfRange);
          }
          if |shown[i][c]| > w {
            w := |shown[i][c]|;
          }
          i := i + 1;
        }
        widths := widths + [w];
        c := c + 1;
      }
      if |columns| > 0 {
        assert forall i :: 0 <= i < |shown| ==> |columns| - 1 < |shown[i]| by {
          assert IsColumnWidth(widths[|columns| - 1], columns[|columns| - 1], shown, |columns| - 1);
        }
      }
      r := Success(widths);
    }
  }
}
