/**
 * The table on plain values. A frame is its column names and its rows; each
 * operation of the DataFrame class is specified here by a function from the
 * old contents to the new ones, or to the exception Python raises.
 */
module Table {
  import opened Wrappers
  import opened PyList

  /** Cells hold text; the constructor pads with the empty string. */
  type Cell = string
  type Row = seq<Cell>

  /** The exceptions the operations raise. */
  datatype Error =
    | RowLengthMismatch           // add_row_data: ValueError, row length differs from the column count
    | RowIndexMissing             // add_row_data: IndexError, index outside 0 .. len(data) - 1
    | ColumnNotFound(name: string) // ValueError: a requested column name is not a column
    | IndexOutOfRange             // IndexError raised by list subscripting
    | EmptyMax                    // ValueError: max() of an empty sequence

  function Blanks(k: nat): (r: Row)
    ensures |r| == k && forall j :: 0 <= j < k ==> r[j] == ""
  {
    seq(k, j => "")
  }

  // ---------------------------------------------------------------------
  // Construction: padding short rows

  /** A row as the constructor leaves it for `width` columns. */
  function PadRow(row: Row, width: nat): (r: Row)
    ensures |r| == if |row| < width then width else |row|
    ensures r[..|row|] == row
    ensures forall j :: |row| <= j < |r| ==> r[j] == ""
  {
    if |row| < width then row + Blanks(width - |row|) else row
  }

  /** All rows as the constructor leaves them: a row shorter than `width` is
      extended on the right with "" to exactly `width`, a row of `width` or
      more cells is unchanged, and every row keeps its cells as a prefix. */
  function PadRows(rows: seq<Row>, width: nat): (r: seq<Row>)
    ensures |r| == |rows|
    ensures forall i :: 0 <= i < |r| ==> |r[i]| >= width
    ensures forall i :: 0 <= i < |r| && |rows[i]| <= width ==> |r[i]| == width
    ensures forall i :: 0 <= i < |r| && |rows[i]| >= width ==> r[i] == rows[i]
    ensures forall i :: 0 <= i < |r| ==> r[i][..|rows[i]|] == rows[i]
    ensures forall i, j :: 0 <= i < |r| && |rows[i]| <= j < |r[i]| ==> r[i][j] == ""
  {
    seq(|rows|, i requires 0 <= i < |rows| => PadRow(rows[i], width))
  }

  /** Padding to a width and then to a larger one is padding to the larger
      one; in particular padding twice to the same width changes nothing. */
  lemma PadRowsWiden(rows: seq<Row>, w1: nat, w2: nat)
    requires w1 <= w2
    ensures PadRows(PadRows(rows, w1), w2) == PadRows(rows, w2)
  {
    var a, b := PadRows(PadRows(rows, w1), w2), PadRows(rows, w2);
    forall i | 0 <= i < |rows| ensures a[i] == b[i] {
      var x := rows[i];
      assert |a[i]| == |b[i]|;
      forall j | 0 <= j < |a[i]| ensures a[i][j] == b[i][j] {
        if j < |x| {
          assert a[i][..|x|] == x && b[i][..|x|] == x;
          assert a[i][j] == a[i][..|x|][j];
          assert b[i][j] == b[i][..|x|][j];
        } else if j < |PadRows(rows, w1)[i]| {
          assert PadRows(rows, w1)[i][j] == "";
          assert a[i][j] == a[i][..|PadRows(rows, w1)[i]|][j];
        }
      }
    }
  }

  /** The table of columns ["name", "val"] built from rows ("a", "1") and
      ("b") has its second row padded to ("b", ""). */
  lemma PadRowsExample()
    ensures PadRows([["a", "1"], ["b"]], 2) == [["a", "1"], ["b", ""]]
  {
    var r := PadRows([["a", "1"], ["b"]], 2);
    assert r[0] == ["a", "1"];
    assert Blanks(1) == [""];
    assert r[1] == ["b"] + Blanks(1) == ["b", ""];
  }

  /** Rows that are already wide enough are left alone. */
  lemma PadRowsWideEnough(rows: seq<Row>, width: nat)
    requires forall i :: 0 <= i < |rows| ==> |rows[i]| >= width
    ensures PadRows(rows, width) == rows
  {
  }

  // ---------------------------------------------------------------------
  // add_row_data and remove_row

  /** add_row_data: the length check comes first, then the index check; on
      success only row `index` is replaced, wholesale. */
  function ReplaceRow(columns: seq<string>, data: seq<Row>, index: int, row: Row): (r: Result<seq<Row>, Error>)
    ensures |row| != |columns| ==> r == Failure(RowLengthMismatch)
    ensures |row| == |columns| && (index < 0 || index >= |data|) ==> r == Failure(RowIndexMissing)
    ensures r.Success? ==> 0 <= index < |data| && |r.value| == |data| && r.value[index] == row
    ensures r.Success? ==> forall k :: 0 <= k < |data| && k != index ==> r.value[k] == data[k]
    ensures r.Success? <==> |row| == |columns| && 0 <= index < |data|
  {
    if |row| != |columns| then Failure(RowLengthMismatch)
    else if index < 0 || index >= |data| then Failure(RowIndexMissing)
    else Success(data[index := row])
  }

  /** A successful add_row_data keeps every row exactly as wide as the
      columns if they all were (unlike add_row, which checks nothing). */
  lemma ReplaceRowKeepsWidth(columns: seq<string>, data: seq<Row>, index: int, row: Row)
    requires forall i :: 0 <= i < |data| ==> |data[i]| == |columns|
    requires ReplaceRow(columns, data, index, row).Success?
    ensures forall i :: 0 <= i < |data| ==> |ReplaceRow(columns, data, index, row).value[i]| == |columns|
  {
  }

  /** remove_row: `data.remove(data[index])`. The subscript accepts negative
      indices; the row removed is the FIRST one equal to the indexed row, so
      exactly one row goes and the others keep their relative order. */
  function RemoveRowAt(data: seq<Row>, index: int): (r: Result<seq<Row>, Error>)
    ensures r.Failure? <==> !(-(|data| as int) <= index < |data|)
    ensures r.Failure? ==> r.error == IndexOutOfRange
    ensures r.Success? ==> |r.value| == |data| - 1
    ensures r.Success? ==> multiset(r.value) == multiset(data) - multiset{data[NormIndex(index, |data|).value]}
  {
    match NormIndex(index, |data|)
    case None => Failure(IndexOutOfRange)
    case Some(k) =>
      var j := IndexOf(data, data[k]).value;
      assert data == data[..j] + [data[j]] + data[j + 1..];
      Success(RemoveFirst(data, data[k]))
  }

  /** Which row remove_row deletes: position `j`, the first row equal to the
      indexed one; `j` is the indexed position itself exactly when no earlier
      row has the same value. */
  lemma RemoveRowPosition(data: seq<Row>, index: int)
    requires -(|data| as int) <= index < |data|
    ensures var k := NormIndex(index, |data|).value;
      exists j :: 0 <= j <= k && data[j] == data[k] && data[k] !in data[..j] &&
        RemoveRowAt(data, index) == Success(data[..j] + data[j + 1..]) &&
        (j == k <==> data[k] !in data[..k])
  {
    var k := NormIndex(index, |data|).value;
    var j := IndexOf(data, data[k]).value;
    if j < k {
      assert data[j] in data[..k];
    }
    assert 0 <= j <= k && data[j] == data[k];
  }

  /** With a duplicate row earlier in the table, remove_row(2) deletes the
      earlier copy at position 0, not the row at position 2. */
  lemma RemoveRowDuplicateExample()
    ensures RemoveRowAt([["a"], ["b"], ["a"]], 2) == Success([["b"], ["a"]])
  {
    var d: seq<Row> := [["a"], ["b"], ["a"]];
    assert IndexOf(d, ["a"]) == Some(0);
  }

  // ---------------------------------------------------------------------
  // Looking names up: `[columns.index(c) for c in names]`

  /** `name` is the first of `names` that is not in `columns`. */
  ghost predicate FirstMissing(columns: seq<string>, names: seq<string>, name: string)
  {
    exists j :: 0 <= j < |names| && names[j] == name && name !in columns &&
      forall q :: 0 <= q < j ==> names[q] in columns
  }

  /** The first-match positions of `names` in `columns`, or ColumnNotFound
      for the first name that is not a column. */
  function Lookup(columns: seq<string>, names: seq<string>): (r: Result<seq<nat>, Error>)
    ensures r.Success? <==> forall j :: 0 <= j < |names| ==> names[j] in columns
    ensures r.Success? ==> (|r.value| == |names| &&
      forall j :: 0 <= j < |names| ==> IndexOf(columns, names[j]) == Some(r.value[j]))
    ensures r.Failure? ==> r.error.ColumnNotFound? && FirstMissing(columns, names, r.error.name)
  {
    if |names| == 0 then Success([])
    else match IndexOf(columns, names[0])
      case None => Failure(ColumnNotFound(names[0]))
      case Some(k) =>
        match Lookup(columns, names[1..])
        case Failure(e) =>
          var j :| 0 <= j < |names| - 1 && names[1..][j] == e.name && e.name !in columns &&
            forall q :: 0 <= q < j ==> names[1..][q] in columns;
          assert names[j + 1] == e.name;
          assert forall q :: 1 <= q < j + 1 ==> names[q] == names[1..][q - 1];
          Failure(e)
        case Success(ks) =>
          assert forall j :: 1 <= j < |names| ==> names[j] == names[1..][j - 1];
          Success([k] + ks)
  }

  // ---------------------------------------------------------------------
  // get_columns: projection

  /** Every row has a cell at each of the positions `ks`. */
  predicate Fits(data: seq<Row>, ks: seq<nat>)
  {
    forall i, j :: 0 <= i < |data| && 0 <= j < |ks| ==> ks[j] < |data[i]|
  }

  /** `[row[k] for row in data]`. */
  function Column(data: seq<Row>, k: nat): (c: seq<Cell>)
    requires forall i :: 0 <= i < |data| ==> k < |data[i]|
    ensures |c| == |data| && forall i :: 0 <= i < |data| ==> c[i] == data[i][k]
  {
    seq(|data|, i requires 0 <= i < |data| => data[i][k])
  }

  /** `list(zip(*cols))` for columns of common length `n`: zipping no
      columns at all gives no rows, and otherwise the rows transpose back
      to the columns. */
  function Zip(cols: seq<seq<Cell>>, n: nat): (r: seq<Row>)
    requires forall j :: 0 <= j < |cols| ==> |cols[j]| == n
    ensures |cols| == 0 ==> r == []
    ensures forall i :: 0 <= i < |r| ==> |r[i]| == |cols|
    ensures forall j :: 0 <= j < |cols| ==> Column(r, j) == cols[j]
  {
    if |cols| == 0 then []
    else seq(n, i requires 0 <= i < n => seq(|cols|, j requires 0 <= j < |cols| => cols[j][i]))
  }

  /** The rows of `get_columns(req)`: ColumnNotFound for the first requested
      name that is not a column, IndexOutOfRange when some row is too short
      for a requested position, and otherwise one row per row of `data`
      (none when `req` is empty) whose cell `j` is that row's cell under the
      first column named `req[j]`. */
  function Project(columns: seq<string>, data: seq<Row>, req: seq<string>): (r: Result<seq<Row>, Error>)
    ensures (exists j :: 0 <= j < |req| && req[j] !in columns) ==> r.Failure? && r.error.ColumnNotFound?
    ensures r.Failure? && r.error.ColumnNotFound? ==> FirstMissing(columns, req, r.error.name)
    ensures r == Failure(IndexOutOfRange) <==>
      (forall j :: 0 <= j < |req| ==> req[j] in columns) &&
      exists i, j :: 0 <= i < |data| && 0 <= j < |req| && req[j] in columns &&
        |data[i]| <= IndexOf(columns, req[j]).value
    ensures r.Success? ==> |r.value| == if |req| == 0 then 0 else |data|
    ensures r.Success? ==> forall i, j :: 0 <= i < |r.value| && 0 <= j < |req| ==>
      req[j] in columns && IndexOf(columns, req[j]).value < |data[i]| &&
      |r.value[i]| == |req| && r.value[i][j] == data[i][IndexOf(columns, req[j]).value]
  {
    match Lookup(columns, req)
    case Failure(e) => Failure(e)
    case Success(ks) =>
      if !Fits(data, ks) then Failure(IndexOutOfRange)
      else
        var cols := seq(|ks|, j requires 0 <= j < |ks| => Column(data, ks[j]));
        Success(Zip(cols, |data|))
  }

  /** Projecting a projection: names drawn from `req` pick the same cells
      as projecting the original frame on them directly. */
  lemma ProjectOfProjection(columns: seq<string>, data: seq<Row>, req: seq<string>, req2: seq<string>)
    requires Project(columns, data, req).Success?
    requires forall j :: 0 <= j < |req2| ==> req2[j] in req
    ensures Project(req, Project(columns, data, req).value, req2) == Project(columns, data, req2)
  {
    var r1 := Project(columns, data, req).value;
    assert forall j :: 0 <= j < |req| ==> req[j] in columns;
    if |req2| == 0 {
      assert Project(req, r1, req2) == Success([]);
      assert Project(columns, data, req2) == Success([]);
    } else {
      assert |req| > 0 && |r1| == |data|;
      forall i, j | 0 <= i < |data| && 0 <= j < |req2|
        ensures req2[j] in columns && IndexOf(columns, req2[j]).value < |data[i]|
        ensures IndexOf(req, req2[j]).value < |r1[i]|
        ensures r1[i][IndexOf(req, req2[j]).value] == data[i][IndexOf(columns, req2[j]).value]
      {
        var m := IndexOf(req, req2[j]).value;
        assert req[m] == req2[j];
      }
      var p := ProjectOk(req, r1, req2);
      var q := ProjectOk(columns, data, req2);
      forall i | 0 <= i < |data| ensures p[i] == q[i] {
      }
      assert p == q;
    }
  }

  /** When every requested name is a column and every row is wide enough,
      projection succeeds; this gives its rows a name. */
  lemma ProjectOk(columns: seq<string>, data: seq<Row>, req: seq<string>) returns (rows: seq<Row>)
    requires forall j :: 0 <= j < |req| ==> req[j] in columns
    requires forall i, j :: 0 <= i < |data| && 0 <= j < |req| ==> IndexOf(columns, req[j]).value < |data[i]|
    ensures Project(columns, data, req) == Success(rows)
    ensures |rows| == if |req| == 0 then 0 else |data|
    ensures forall i, j :: 0 <= i < |rows| && 0 <= j < |req| ==>
      |rows[i]| == |req| && rows[i][j] == data[i][IndexOf(columns, req[j]).value]
  {
    rows := Project(columns, data, req).value;
  }

  /** Projecting on all column names, with distinct names and rows of exactly
      that width, gives back the rows unchanged. */
  lemma ProjectAllColumns(columns: seq<string>, data: seq<Row>)
    requires |columns| > 0
    requires forall a, b :: 0 <= a < b < |columns| ==> columns[a] != columns[b]
    requires forall i :: 0 <= i < |data| ==> |data[i]| == |columns|
    ensures Project(columns, data, columns) == Success(data)
  {
    forall j | 0 <= j < |columns| ensures IndexOf(columns, columns[j]) == Some(j) {
      IndexOfDistinct(columns, j);
    }
    var r := Project(columns, data, columns);
    assert r.Success?;
    assert |r.value| == |data|;
    forall i | 0 <= i < |data| ensures r.value[i] == data[i] {
      assert |r.value[i]| == |data[i]|;
      forall j | 0 <= j < |columns| ensures r.value[i][j] == data[i][j] {
        assert IndexOf(columns, columns[j]) == Some(j);
      }
    }
    assert r.value == data;
  }

  /** The table of columns ["x", "y"] and rows (1, 2), (3, 4), (5, 6),
      projected on ["y", "x"], has rows (2, 1), (4, 3), (6, 5). */
  lemma ProjectSwapExample()
    ensures Project(["x", "y"], [["1", "2"], ["3", "4"], ["5", "6"]], ["y", "x"])
      == Success([["2", "1"], ["4", "3"], ["6", "5"]])
  {
    var cs, d := ["x", "y"], [["1", "2"], ["3", "4"], ["5", "6"]];
    assert IndexOf(cs, "y") == Some(1);
    assert IndexOf(cs, "x") == Some(0);
    var r := Project(cs, d, ["y", "x"]);
    assert ["y", "x"][1..] == ["x"] && ["x"][1..] == [];
    assert r.Success?;
    assert |r.value| == 3;
    assert r.value[0][0] == "2";
    assert r.value[0] == ["2", "1"];
    assert r.value[1] == ["4", "3"] && r.value[2] == ["6", "5"];
    assert r.value == [["2", "1"], ["4", "3"], ["6", "5"]];
  }

  // ---------------------------------------------------------------------
  // remove_column

  /** The new columns and rows of `remove_column(cols)`. Every name is looked
      up before anything changes, so a missing name yields ColumnNotFound
      for the first one. Otherwise the surviving names are exactly the
      columns not in `cols`, in their old order, and each row keeps exactly
      its cells at positions that are not the first match of a requested
      name (cells beyond the columns included). */
  function DropColumns(columns: seq<string>, data: seq<Row>, cols: seq<string>): (r: Result<(seq<string>, seq<Row>), Error>)
    ensures r.Failure? <==> exists j :: 0 <= j < |cols| && cols[j] !in columns
    ensures r.Failure? ==> r.error.ColumnNotFound? && FirstMissing(columns, cols, r.error.name)
    ensures r.Success? ==> forall k :: 0 <= k < |r.value.0| ==> r.value.0[k] in columns && r.value.0[k] !in cols
    ensures r.Success? ==> forall p :: 0 <= p < |columns| && columns[p] !in cols ==> columns[p] in r.value.0
    ensures r.Success? ==> r.value.0 == Keep(columns, Matching(columns, cols))
    ensures r.Success? ==> (|r.value.1| == |data| &&
      forall i :: 0 <= i < |data| ==> r.value.1[i] == Keep(data[i], Lookup(columns, cols).value))
  {
    match Lookup(columns, cols)
    case Failure(e) => Failure(e)
    case Success(ks) =>
      FilterOutIsKeep(columns, cols);
      Success((FilterOut(columns, cols), seq(|data|, i requires 0 <= i < |data| => Keep(data[i], ks))))
  }

  /** With distinct column names the first-match positions of the removed
      names are exactly the positions whose name is removed. */
  lemma FirstMatchesAreMatching(columns: seq<string>, cols: seq<string>)
    requires forall a, b :: 0 <= a < b < |columns| ==> columns[a] != columns[b]
    requires Lookup(columns, cols).Success?
    ensures forall p :: 0 <= p < |columns| ==> (p in Lookup(columns, cols).value <==> p in Matching(columns, cols))
  {
    var ks := Lookup(columns, cols).value;
    forall p | 0 <= p < |columns| ensures p in ks <==> columns[p] in cols {
      if p in ks {
        var j :| 0 <= j < |ks| && ks[j] == p;
        assert columns[p] == cols[j];
      }
      if columns[p] in cols {
        var j :| 0 <= j < |cols| && cols[j] == columns[p];
        IndexOfDistinct(columns, p);
        assert ks[j] == p;
      }
    }
  }

  /** With distinct column names and a row exactly as wide as the columns,
      remove_column keeps the row aligned with the names: the new row is as
      wide as the new columns, and each surviving name sits at the same new
      position as the cell that was under it. */
  lemma DropColumnsAligned(columns: seq<string>, data: seq<Row>, cols: seq<string>, i: nat)
    requires forall a, b :: 0 <= a < b < |columns| ==> columns[a] != columns[b]
    requires i < |data| && |data[i]| == |columns|
    requires DropColumns(columns, data, cols).Success?
    ensures |DropColumns(columns, data, cols).value.1[i]| == |DropColumns(columns, data, cols).value.0|
    ensures forall p :: 0 <= p < |columns| && columns[p] !in cols ==>
      KeptBefore(Matching(columns, cols), p) < |DropColumns(columns, data, cols).value.0| &&
      DropColumns(columns, data, cols).value.0[KeptBefore(Matching(columns, cols), p)] == columns[p] &&
      DropColumns(columns, data, cols).value.1[i][KeptBefore(Matching(columns, cols), p)] == data[i][p]
  {
    var ks := Lookup(columns, cols).value;
    var m := Matching(columns, cols);
    var r := DropColumns(columns, data, cols).value;
    FirstMatchesAreMatching(columns, cols);
    KeepSame(data[i], ks, m);
    assert r.1[i] == Keep(data[i], m);
    forall p | 0 <= p < |columns| && columns[p] !in cols
      ensures KeptBefore(m, p) < |r.0| && r.0[KeptBefore(m, p)] == columns[p]
      ensures r.1[i][KeptBefore(m, p)] == data[i][p]
    {
      KeepAt(columns, m, p);
      KeepAt(data[i], m, p);
    }
  }

  /** With a repeated column name the alignment above fails: every column
      called "a" goes, but only the cell at the first match does. */
  lemma DropColumnsRepeatedNameExample()
    ensures DropColumns(["a", "a"], [["1", "2"]], ["a"]) == Success(([], [["2"]]))
  {
    var cs, row := ["a", "a"], ["1", "2"];
    assert IndexOf(cs, "a") == Some(0);
    assert row[..1] == ["1"] && ["1"][..0] == [];
    assert Keep(row, [0]) == ["2"];
    assert cs[..1] == ["a"] && ["a"][..0] == [];
    assert FilterOut(cs, ["a"]) == [];
    assert ["a"][1..] == [];
    var r := DropColumns(cs, [row], ["a"]);
    assert r.Success?;
    assert r.value.0 == [];
    assert r.value.1 == [["2"]];
  }

  // ---------------------------------------------------------------------
  // head and tail

  /** head(n): `data[0:n]`. For n >= 0 the first min(n, len) rows; a
      negative n drops the last |n| rows. */
  function HeadRows(data: seq<Row>, n: int): (r: seq<Row>)
    ensures r == data[..SliceBound(n, |data|)]
    ensures 0 <= n ==> |r| == if n < |data| then n else |data|
    ensures n < 0 ==> |r| == if |data| + n > 0 then |data| + n else 0
  {
    Slice(data, 0, n)
  }

  /** tail(n): `data[-1-n:]`. For n >= 0 this is the last min(n + 1, len)
      rows, one more than asked for; tail(-1) is every row, and for n < -1
      the first -1 - n rows are skipped. */
  function TailRows(data: seq<Row>, n: int): (r: seq<Row>)
    ensures r == data[SliceBound(-1 - n, |data|)..]
    ensures 0 <= n ==> |r| == if n + 1 < |data| then n + 1 else |data|
    ensures n == -1 ==> r == data
    ensures n < -1 ==> |r| == if -1 - n < |data| then |data| + 1 + n else 0
  {
    Slice(data, -1 - n, |data|)
  }
}
