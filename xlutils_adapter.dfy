/** XlutilsAdapter: the cell-value methods of the xlrd/xlwt/xlutils backend for
    .xls files. Reads go to the sheet xlrd opened: `nrows` rows and `ncols`
    columns, indexed from 0 with Python's list indexing (a negative index
    counts from the end). A write copies the book, writes the copy with xlwt,
    saves it over the file and reopens it, so the sheet always equals the file.
    With auto_save off, every write raises UnboundLocalError before saving (the
    backup path is built from `suffix` before that variable is assigned), and
    the sheet stays as it was. Cells are keyed by 0-based (row, column). */
module XlutilsSheet {
  import opened Wrappers
  import opened Cells
  import opened ColumnLetters

  /** The index ranges xlwt accepts in a .xls sheet. */
  const XlsRows: nat := 65536
  const XlsCols: nat := 256

  function Max(a: int, b: int): int {
    if a >= b then a else b
  }

  /** What xlrd reads back from a cell: an empty cell is "", a boolean is the
      integer 1 or 0, any other value is itself. */
  function ReadBack(c: Cell): (v: Value)
    ensures c.None? ==> v == Text("")
    ensures c.Some? && !c.value.Flag? ==> v == c.value
    ensures c.Some? && c.value.Flag? ==> v == Num(if c.value.b then 1 else 0)
  {
    match c
    case None => Text("")
    case Some(Flag(b)) => Num(if b then 1 else 0)
    case Some(x) => x
  }

  /** Python's indexing of a list of length n: i in 0..n-1 is itself, i in
      -n..-1 counts from the end, anything else raises IndexError. */
  function PyIndex(i: int, n: nat): (r: Option<nat>)
    ensures r.Some? <==> -(n as int) <= i < n
    ensures r.Some? ==> r.value < n && (if i >= 0 then r.value == i else r.value == n + i)
  {
    if 0 <= i < n then Some(i) else if -(n as int) <= i < 0 then Some(n + i) else None
  }

  /** The column number get_column_index gives for a name, if it is one. */
  function ColumnNumber(column: string): Option<nat> {
    if IsColumnName(Upper(column)) then Some(Number(Upper(column))) else None
  }

  /** A cell index xlwt accepts. */
  predicate XlsCell(row: int, col: int) {
    0 <= row < XlsRows && 0 <= col < XlsCols
  }

  /** xlwt writes of values[k] into row `fromRow` + k of column `col`, in order;
      the first index xlwt refuses raises ValueError. `last` is the last row
      written. */
  method WriteColumnRun(g: Grid, col: int, values: seq<Cell>, fromRow: int) returns (r: Result<Grid, Exception>)
    ensures r.Ok? <==> values == [] || (XlsCell(fromRow, col) && XlsCell(fromRow + |values| - 1, col))
    ensures r.Err? ==> r.error == ValueError
    ensures r.Ok? ==> ColumnRunWritten(r.value, g, col, fromRow, values)
    ensures r.Ok? ==> forall p {:trigger p in r.value} :: p in r.value ==> p in g || (p.1 == col && fromRow <= p.0 < fromRow + |values|)
  {
    var h := g;
    var currentRow := fromRow;
    for k := 0 to |values|
      invariant currentRow == fromRow + k
      invariant k > 0 ==> XlsCell(fromRow, col) && XlsCell(currentRow - 1, col)
      invariant forall row, c {:trigger At(h, row, c)} ::
        At(h, row, c) == if c == col && fromRow <= row < currentRow then values[row - fromRow] else At(g, row, c)
      invariant forall p {:trigger p in h} :: p in h ==> p in g || (p.1 == col && fromRow <= p.0 < currentRow)
    {
      if !XlsCell(currentRow, col) {
        return Err(ValueError);
      }
      h := Put(h, currentRow, col, values[k]);
      currentRow := currentRow + 1;
    }
    return Ok(h);
  }

  /** Grid `h` is `g` with values[k] in row `fromRow` + k of column `col`. */
  ghost predicate ColumnRunWritten(h: Grid, g: Grid, col: int, fromRow: int, values: seq<Cell>) {
    forall row, c {:trigger At(h, row, c)} ::
      At(h, row, c) == if c == col && fromRow <= row < fromRow + |values| then values[row - fromRow] else At(g, row, c)
  }

  /** xlwt writes of values[k] into column k of row `row`, in order; the first
      index xlwt refuses raises ValueError. */
  method WriteRowRun(g: Grid, row: int, values: seq<Cell>) returns (r: Result<Grid, Exception>)
    ensures r.Ok? <==> values == [] || (XlsCell(row, 0) && XlsCell(row, |values| - 1))
    ensures r.Err? ==> r.error == ValueError
    ensures r.Ok? ==> forall rw, c {:trigger At(r.value, rw, c)} ::
      At(r.value, rw, c) == if rw == row && 0 <= c < |values| then values[c] else At(g, rw, c)
    ensures r.Ok? ==> forall p {:trigger p in r.value} :: p in r.value ==> p in g || (p.0 == row && 0 <= p.1 < |values|)
  {
    var h := g;
    var currentCol := 0;
    for k := 0 to |values|
      invariant currentCol == k
      invariant k > 0 ==> XlsCell(row, 0) && XlsCell(row, k - 1)
      invariant forall rw, c {:trigger At(h, rw, c)} ::
        At(h, rw, c) == if rw == row && 0 <= c < k then values[c] else At(g, rw, c)
      invariant forall p {:trigger p in h} :: p in h ==> p in g || (p.0 == row && 0 <= p.1 < k)
    {
      if !XlsCell(row, currentCol) {
        return Err(ValueError);
      }
      h := Put(h, row, currentCol, values[k]);
      currentCol := currentCol + 1;
    }
    return Ok(h);
  }

  class XlutilsAdapter {
    var cells: Grid
    var nrows: nat
    var ncols: nat

    ghost predicate Valid()
      reads this
    {
      InBox(cells, 0, nrows - 1, 0, ncols - 1)
    }

    /** What the sheet reads at (row, col), both already in range. */
    function ReadAt(row: int, col: int): Value
      reads this
    {
      ReadBack(At(cells, row, col))
    }

    /** A sheet as xlrd opens it. */
    constructor Open(g: Grid, rows: nat, cols: nat)
      requires InBox(g, 0, rows - 1, 0, cols - 1)
      ensures Valid() && cells == g && nrows == rows && ncols == cols
    {
      cells, nrows, ncols := g, rows, cols;
    }

    /** get_value: cell (row - 1, column index - 1), with Python indexing. */
    method GetValue(column: string, row: int) returns (r: Result<Value, Exception>)
      ensures ColumnNumber(column).None? ==> r == Err(ValueError)
      ensures ColumnNumber(column).Some? ==>
        var ri := PyIndex(row - 1, nrows);
        var ci := PyIndex(ColumnNumber(column).value - 1, ncols);
        if ri.Some? && ci.Some? then r == Ok(ReadAt(ri.value, ci.value)) else r == Err(IndexError)
    {
      var index := GetColumnIndex(column);
      if index.Err? {
        return Err(ValueError);
      }
      var ri := PyIndex(row - 1, nrows);
      var ci := PyIndex(index.value as int - 1, ncols);
      if ri.None? || ci.None? {
        return Err(IndexError);
      }
      return Ok(ReadAt(ri.value, ci.value));
    }

    /** get_row_values: the whole of row row - 1, all ncols cells of it. */
    method GetRowValues(row: int) returns (r: Result<seq<Value>, Exception>)
      ensures PyIndex(row - 1, nrows).None? ==> r == Err(IndexError)
      ensures PyIndex(row - 1, nrows).Some? ==>
        && r.Ok? && |r.value| == ncols
        && forall j :: 0 <= j < ncols ==> r.value[j] == ReadAt(PyIndex(row - 1, nrows).value, j)
    {
      var ri := PyIndex(row - 1, nrows);
      if ri.None? {
        return Err(IndexError);
      }
      return Ok(seq(ncols, j reads this => ReadAt(ri.value, j)));
    }

    /** get_col_values: cell (i, column index - 1) of every row i; a sheet
        without rows gives [] whatever the column index. */
    method GetColValues(column: string) returns (r: Result<seq<Value>, Exception>)
      ensures ColumnNumber(column).None? ==> r == Err(ValueError)
      ensures ColumnNumber(column).Some? && nrows == 0 ==> r == Ok([])
      ensures ColumnNumber(column).Some? && nrows > 0 ==>
        var ci := PyIndex(ColumnNumber(column).value - 1, ncols);
        && (ci.None? ==> r == Err(IndexError))
        && (ci.Some? ==>
              r.Ok? && |r.value| == nrows && forall i :: 0 <= i < nrows ==> r.value[i] == ReadAt(i, ci.value))
    {
      var index := GetColumnIndex(column);
      if index.Err? {
        return Err(ValueError);
      }
      if nrows == 0 {
        return Ok([]);
      }
      var ci := PyIndex(index.value as int - 1, ncols);
      if ci.None? {
        return Err(IndexError);
      }
      return Ok(seq(nrows, i reads this => ReadAt(i, ci.value)));
    }

    /** Saves the xlwt copy `g` over the file and reopens it; with auto_save
        off the backup path cannot be built and nothing changes. */
    method Commit(g: Grid, rows: nat, cols: nat, autoSave: bool) returns (r: Result<(), Exception>)
      requires InBox(g, 0, rows - 1, 0, cols - 1)
      requires Valid()
      modifies this
      ensures Valid()
      ensures !autoSave ==> r == Err(UnboundLocalError) && unchanged(this)
      ensures autoSave ==> r == Ok(()) && cells == g && nrows == rows && ncols == cols
    {
      if !autoSave {
        return Err(UnboundLocalError);
      }
      cells, nrows, ncols := g, rows, cols;
      return Ok(());
    }

    /** insert_value: writes cell (row - 1, column index - 1). */
    method InsertValue(column: string, row: int, value: Cell, autoSave: bool) returns (r: Result<(), Exception>)
      requires Valid()
      modifies this
      ensures Valid()
      ensures r.Err? ==> unchanged(this)
      ensures ColumnNumber(column).None? ==> r == Err(ValueError)
      ensures ColumnNumber(column).Some? ==>
        var c := ColumnNumber(column).value - 1;
        && (!XlsCell(row - 1, c) ==> r == Err(ValueError))
        && (XlsCell(row - 1, c) && !autoSave ==> r == Err(UnboundLocalError))
        && (XlsCell(row - 1, c) && autoSave ==>
              && r == Ok(())
              && cells == Put(old(cells), row - 1, c, value)
              && nrows == Max(old(nrows), row) && ncols == Max(old(ncols), c + 1))
    {
      var index := GetColumnIndex(column);
      if index.Err? {
        return Err(ValueError);
      }
      var c: int := index.value as int - 1;
      if !XlsCell(row - 1, c) {
        return Err(ValueError);
      }
      r := Commit(Put(cells, row - 1, c, value), Max(nrows, row), Max(ncols, c + 1), autoSave);
    }

    /** append_value: writes the cell of the column in row nrows, the first
        row after the sheet. */
    method AppendValue(column: string, value: Cell, autoSave: bool) returns (r: Result<(), Exception>)
      requires Valid()
      modifies this
      ensures Valid()
      ensures r.Err? ==> unchanged(this)
      ensures ColumnNumber(column).None? ==> r == Err(ValueError)
      ensures ColumnNumber(column).Some? ==>
        var c := ColumnNumber(column).value - 1;
        && (!XlsCell(old(nrows), c) ==> r == Err(ValueError))
        && (XlsCell(old(nrows), c) && !autoSave ==> r == Err(UnboundLocalError))
        && (XlsCell(old(nrows), c) && autoSave ==>
              && r == Ok(())
              && cells == Put(old(cells), old(nrows), c, value)
              && nrows == old(nrows) + 1 && ncols == Max(old(ncols), c + 1))
    {
      var index := GetColumnIndex(column);
      if index.Err? {
        return Err(ValueError);
      }
      var c: int := index.value as int - 1;
      if !XlsCell(nrows, c) {
        return Err(ValueError);
      }
      r := Commit(Put(cells, nrows, c, value), nrows + 1, Max(ncols, c + 1), autoSave);
    }

    /** insert_values. "append": the values go into the column from row nrows
        on. "insert": from row startRow on, counted from 0 as xlwt counts.
        Any other mode writes nothing. The column name is looked up only when
        there is a value to write. */
    method InsertValues(column: string, values: seq<Cell>, mode: string, startRow: int, autoSave: bool)
      returns (r: Result<(), Exception>)
      requires Valid()
      modifies this
      ensures Valid()
      ensures r.Err? ==> unchanged(this)
      ensures (mode != "append" && mode != "insert") || values == [] ==>
        (if autoSave then r == Ok(()) && cells == old(cells) && nrows == old(nrows) && ncols == old(ncols)
         else r == Err(UnboundLocalError))
      ensures (mode == "append" || mode == "insert") && values != [] ==>
        var from := if mode == "append" then old(nrows) else startRow;
        match ColumnNumber(column)
        case None => r == Err(ValueError)
        case Some(n) =>
          && (!(XlsCell(from, n - 1) && XlsCell(from + |values| - 1, n - 1)) ==> r == Err(ValueError))
          && (XlsCell(from, n - 1) && XlsCell(from + |values| - 1, n - 1) ==>
                && (!autoSave ==> r == Err(UnboundLocalError))
                && (autoSave ==>
                      && r == Ok(())
                      && nrows == Max(old(nrows), from + |values|) && ncols == Max(old(ncols), n)
                      && ColumnRunWritten(cells, old(cells), n - 1, from, values)))
    {
      if (mode == "append" || mode == "insert") && values != [] {
        var from := if mode == "append" then nrows else startRow;
        var index := GetColumnIndex(column);
        if index.Err? {
          return Err(ValueError);
        }
        ghost var n := index.value;
        assert ColumnNumber(column) == Some(n);
        var c: int := index.value as int - 1;
        var written := WriteColumnRun(cells, c, values, from);
        if written.Err? {
          return Err(ValueError);
        }
        r := Commit(written.value, Max(nrows, from + |values|), Max(ncols, c + 1), autoSave);
      } else {
        r := Commit(cells, nrows, ncols, autoSave);
      }
    }

    /** append_row: writes the values into row nrows from column 0 on. */
    method AppendRow(values: seq<Cell>, autoSave: bool) returns (r: Result<(), Exception>)
      requires Valid()
      modifies this
      ensures Valid()
      ensures r.Err? ==> unchanged(this)
      ensures values != [] && !(XlsCell(old(nrows), 0) && |values| <= XlsCols) ==> r == Err(ValueError)
      ensures (values == [] || (XlsCell(old(nrows), 0) && |values| <= XlsCols)) && !autoSave ==> r == Err(UnboundLocalError)
      ensures (values == [] || (XlsCell(old(nrows), 0) && |values| <= XlsCols)) && autoSave ==>
        && r == Ok(())
        && nrows == (if values == [] then old(nrows) else old(nrows) + 1)
        && ncols == Max(old(ncols), |values|)
        && forall row, c {:trigger At(cells, row, c)} ::
             At(cells, row, c) == if row == old(nrows) && 0 <= c < |values| then values[c] else old(At(cells, row, c))
    {
      var written := WriteRowRun(cells, nrows, values);
      if written.Err? {
        return Err(ValueError);
      }
      r := Commit(written.value, if values == [] then nrows else nrows + 1, Max(ncols, |values|), autoSave);
    }
  }
}
