/** XlwingsAdapter: the cell-value methods of the xlwings backend, which drives
    a running Excel. Every address of the worksheet can be read (an unwritten
    cell reads as None); an address outside rows 1..MaxRows makes Excel raise,
    written here AddressError. `lastRow` is the last row of the sheet's used
    range, at least the row of every cell present in the grid; `saved` is the
    grid as book.save last wrote it. Columns are given by their index. */
module XlwingsSheet {
  import opened Wrappers
  import opened Cells

  /** The cursor loops of append_value and insert_values run while the row is
      below 1048576, so they never visit the sheet's last row. */
  const LastCursorRow: nat := MaxRows - 1

  function Max(a: int, b: int): int {
    if a >= b then a else b
  }

  /** Some of the two outcomes of the xlwings scan. */
  ghost predicate ScannedEither(view: seq<Cell>, vals: seq<Cell>) {
    XlwingsScanned(view, vals, true) || XlwingsScanned(view, vals, false)
  }

  /** A row whose first 26 cells are all truthy never breaks off within those
      26 cells, and a scan of the whole row returns at least those cells. */
  lemma {:induction false} NoBreakWithinTruthyPrefix(view: seq<Cell>)
    requires |view| >= 26
    requires forall j :: 0 <= j < 26 ==> !Falsy(view[j])
    ensures forall vals :: !XlwingsScanned(view[..26], vals, true)
    ensures forall vals, broke :: XlwingsScanned(view, vals, broke) ==> |vals| >= 26 && view[..26] <= vals
  {
    forall vals ensures !XlwingsScanned(view[..26], vals, true) {
      if vals <= view[..26] && |vals| >= 1 && |vals| - 1 + 6 <= 26 {
        TruthyAt(view, |vals| - 1);
      }
    }
    forall vals, broke | XlwingsScanned(view, vals, broke)
      ensures |vals| >= 26 && view[..26] <= vals
    {
      if broke {
        FalsyPastPrefix(view, |vals| - 1);
      } else if RunAt(view, AnyFalsy, |view| - 5, 5) {
        FalsyPastPrefix(view, |view| - 5);
      }
    }
  }

  lemma TruthyAt(view: seq<Cell>, j: int)
    requires |view| >= 26 && 0 <= j < 26
    requires forall j :: 0 <= j < 26 ==> !Falsy(view[j])
    ensures !Falsy(view[..26][j])
  {
  }

  lemma FalsyPastPrefix(view: seq<Cell>, j: int)
    requires |view| >= 26 && 0 <= j < |view|
    requires forall j :: 0 <= j < 26 ==> !Falsy(view[j])
    ensures Falsy(view[j]) ==> j >= 26
  {
  }

  /** The loop of insert_values in "append" mode: for each value, a cursor that
      starts at startRow walks down to the first None cell below row 1048576,
      writes the value there and steps past it; a value that finds no cell is
      dropped. `last` is the last row written, 0 when none is. */
  method FillFrom(g: Grid, col: int, values: seq<Cell>, startRow: int) returns (h: Grid, last: int)
    requires startRow >= 1
    ensures Column(h, LastCursorRow, col) == Fill(Column(g, LastCursorRow, col), 1, startRow, values)
    ensures forall row, c {:trigger At(h, row, c)} ::
      c != col || row < 1 || row > LastCursorRow ==> At(h, row, c) == At(g, row, c)
    ensures 0 <= last <= LastCursorRow
    ensures forall p {:trigger p in h} :: p in h ==> p in g || (p.1 == col && 1 <= p.0 <= last)
  {
    h, last := g, 0;
    var saveRow := startRow;
    ghost var i := 0;
    FillingFrom(g, LastCursorRow, col, startRow, values, Min(startRow - 1, LastCursorRow));
    for k := 0 to |values|
      invariant startRow <= saveRow && 0 <= i <= k && 0 <= last < saveRow
      invariant Filling(g, h, LastCursorRow, col, startRow, values, Min(saveRow - 1, LastCursorRow), i, last)
      invariant saveRow <= LastCursorRow ==> i == k
    {
      var found := false;
      while saveRow < MaxRows && !found
        invariant startRow <= saveRow && 0 <= last < saveRow
        invariant Filling(g, h, LastCursorRow, col, startRow, values, Min(saveRow - 1, LastCursorRow), i, last)
        invariant found ==> i == k + 1
        invariant !found ==> i <= k && (saveRow <= LastCursorRow ==> i == k)
        decreases MaxRows - saveRow, !found
      {
        FillingStep(g, h, LastCursorRow, col, startRow, values, saveRow - 1, i, last);
        if At(h, saveRow, col).None? {
          h := Put(h, saveRow, col, values[k]);
          last := saveRow;
          found := true;
          i := i + 1;
        }
        saveRow := saveRow + 1;
      }
    }
    FillingEnd(g, h, LastCursorRow, col, startRow, values, Min(saveRow - 1, LastCursorRow), i, last);
  }

  /** append_row as written writes into the used range's last row: a first
      value different from the cell already in column 1 of that row replaces
      it, while writing into the row below leaves it as it was. */
  lemma AsWrittenOverwritesLastRow(g: Grid, last: int, values: seq<Cell>)
    requires 1 <= |values| && At(g, last, 1).Some? && values[0] != At(g, last, 1)
    ensures At(WriteRow(g, last, values[..Min(|values|, MaxCols)]), last, 1) != At(g, last, 1)
    ensures At(WriteRow(g, last + 1, values), last, 1) == At(g, last, 1)
  {
    assert values[..Min(|values|, MaxCols)][0] == values[0];
  }

  class XlwingsAdapter {
    var cells: Grid
    var lastRow: nat
    var saved: Grid

    ghost predicate Valid()
      reads this
    {
      1 <= lastRow <= MaxRows && InBox(cells, 1, lastRow, 1, MaxCols)
    }

    /** The rows a column scan reads: the whole column. */
    function ColumnCells(col: int): seq<Cell>
      reads this
    {
      Column(cells, MaxRows, col)
    }

    /** The rows the cursor of append_value and insert_values can reach. */
    function CursorCells(col: int): seq<Cell>
      reads this
    {
      Column(cells, LastCursorRow, col)
    }

    /** A workbook open in Excel. */
    constructor Open(g: Grid, usedLastRow: nat)
      requires 1 <= usedLastRow <= MaxRows && InBox(g, 1, usedLastRow, 1, MaxCols)
      ensures Valid()
      ensures cells == g && lastRow == usedLastRow && saved == g
    {
      cells, lastRow, saved := g, usedLastRow, g;
    }

    /** save: writes the workbook to its file. */
    method Save()
      modifies this
      ensures saved == cells
      ensures cells == old(cells) && lastRow == old(lastRow)
    {
      saved := cells;
    }

    /** get_value: the value of one cell; an address outside the sheet raises. */
    method GetValue(col: int, row: int) returns (r: Result<Cell, Exception>)
      requires Valid() && 1 <= col <= MaxCols
      ensures !(1 <= row <= MaxRows) ==> r == Err(AddressError)
      ensures 1 <= row <= MaxRows ==> r.Ok? && r.value == At(cells, row, col)
      ensures row > lastRow ==> r.Err? || r.value.None?
    {
      if row < 1 || row > MaxRows {
        return Err(AddressError);
      }
      return Ok(At(cells, row, col));
    }

    /** get_row_values as written: the cursor is a single character stepped
        with chr(ord(c) + 1), so after column 'Z' it builds the address "[" +
        row, which Excel refuses. The row is read only as far as column Z, and
        a scan that has not stopped by then raises. */
    method GetRowValuesAsWritten(row: int) returns (r: Result<seq<Cell>, Exception>)
      ensures !(1 <= row <= MaxRows) ==> r == Err(AddressError)
      ensures 1 <= row <= MaxRows ==>
        (r.Ok? <==> exists vals :: XlwingsScanned(Row(cells, 26, row), vals, true))
      ensures r.Ok? ==> XlwingsScanned(Row(cells, 26, row), r.value, true)
      ensures r.Err? ==> r.error == AddressError
    {
      if row < 1 || row > MaxRows {
        return Err(AddressError);
      }
      var vals, broke := XlwingsScan(Row(cells, 26, row));
      if !broke {
        return Err(AddressError);
      }
      return Ok(vals);
    }

    /** get_row_values with the columns named by get_column_letter: the row's
        cells up to the sixth consecutive falsy cell, with the trailing five of
        those dropped. */
    method GetRowValues(row: int) returns (r: Result<seq<Cell>, Exception>)
      ensures !(1 <= row <= MaxRows) ==> r == Err(AddressError)
      ensures 1 <= row <= MaxRows ==> r.Ok? && ScannedEither(Row(cells, MaxCols, row), r.value)
    {
      if row < 1 || row > MaxRows {
        return Err(AddressError);
      }
      var vals, broke := XlwingsScan(Row(cells, MaxCols, row));
      return Ok(vals);
    }

    /** get_col_values: the column's cells up to the sixth consecutive falsy
        cell, with the trailing five of those dropped. */
    method GetColValues(col: int) returns (vals: seq<Cell>)
      requires 1 <= col <= MaxCols
      ensures ScannedEither(ColumnCells(col), vals)
    {
      var broke;
      vals, broke := XlwingsScan(Column(cells, MaxRows, col));
    }

    /** insert_value: sets one cell, then saves when asked to. */
    method InsertValue(col: int, row: int, value: Cell, autoSave: bool) returns (r: Result<(), Exception>)
      requires Valid() && 1 <= col <= MaxCols
      modifies this
      ensures Valid()
      ensures !(1 <= row <= MaxRows) ==> r == Err(AddressError) && unchanged(this)
      ensures 1 <= row <= MaxRows ==>
        && r == Ok(())
        && cells == Put(old(cells), row, col, value)
        && lastRow == Max(old(lastRow), row)
        && saved == if autoSave then cells else old(saved)
    {
      if row < 1 || row > MaxRows {
        return Err(AddressError);
      }
      cells := Put(cells, row, col, value);
      lastRow := Max(lastRow, row);
      if autoSave {
        saved := cells;
      }
      return Ok(());
    }

    /** append_value: writes the value into the first None cell of the column
        at or below startRow and above row 1048576, returning True at once
        WITHOUT saving; when there is no such cell, nothing is written, the
        book is saved when asked to and None (here false) is returned. A start
        row below 1 makes Excel raise. */
    method AppendValue(col: int, value: Cell, startRow: int, autoSave: bool) returns (r: Result<bool, Exception>)
      requires Valid() && 1 <= col <= MaxCols
      modifies this
      ensures Valid()
      ensures startRow < 1 ==> r == Err(AddressError) && unchanged(this)
      ensures startRow >= 1 ==>
        match FirstEmptyRow(old(CursorCells(col)), startRow)
        case Some(row) =>
          r == Ok(true) && cells == Put(old(cells), row, col, value)
          && lastRow == Max(old(lastRow), row) && saved == old(saved)
        case None =>
          r == Ok(false) && cells == old(cells) && lastRow == old(lastRow)
          && saved == if autoSave then cells else old(saved)
    {
      if startRow < 1 {
        return Err(AddressError);
      }
      ghost var view := CursorCells(col);
      var row := startRow;
      while row < MaxRows
        invariant startRow <= row && |view| == LastCursorRow
        invariant forall j :: startRow - 1 <= j < row - 1 && j < |view| ==> view[j].Some?
        invariant unchanged(this)
      {
        if At(cells, row, col).None? {
          assert view[row - 1].None?;
          cells := Put(cells, row, col, value);
          lastRow := Max(lastRow, row);
          return Ok(true);
        }
        row := row + 1;
      }
      if autoSave {
        saved := cells;
      }
      return Ok(false);
    }

    /** insert_values. "append": the column's None cells at or below startRow
        and above row 1048576 receive the values top-down; a start row below 1
        raises before anything is written. "insert": rows startRow.. are set to
        the values, and a row outside the sheet raises, keeping the rows written
        before it. Any other mode writes nothing. Saves when asked to and
        nothing was raised. */
    method InsertValues(col: int, values: seq<Cell>, mode: string, startRow: int, autoSave: bool)
      returns (r: Result<(), Exception>)
      requires Valid() && 1 <= col <= MaxCols
      modifies this
      ensures Valid()
      ensures mode == "append" ==>
        && (r.Err? <==> values != [] && startRow < 1)
        && (r.Err? ==> unchanged(this))
        && (r.Ok? ==> CursorCells(col) == Fill(old(CursorCells(col)), 1, startRow, values))
        && forall row, c {:trigger At(cells, row, c)} ::
             c != col || row < 1 || row > LastCursorRow ==> At(cells, row, c) == old(At(cells, row, c))
      ensures mode == "insert" ==>
        && (r.Ok? <==> values == [] || (1 <= startRow && startRow + |values| - 1 <= MaxRows))
        && forall row, c {:trigger At(cells, row, c)} ::
             At(cells, row, c)
             == if c == col && 1 <= startRow <= row < startRow + |values| && row <= MaxRows then values[row - startRow]
                else old(At(cells, row, c))
      ensures mode != "append" && mode != "insert" ==> r.Ok? && cells == old(cells)
      ensures r.Ok? ==> saved == if autoSave then cells else old(saved)
      ensures r.Err? ==> saved == old(saved) && r.error == AddressError
    {
      if mode == "append" {
        if values == [] {
          FillNothing(CursorCells(col), 1, startRow, values);
        } else {
          if startRow < 1 {
            return Err(AddressError);
          }
          var g, last := FillFrom(cells, col, values, startRow);
          cells, lastRow := g, Max(lastRow, last);
        }
      } else if mode == "insert" {
        var g, ok, last := WriteDown(cells, col, values, startRow);
        cells, lastRow := g, Max(lastRow, last);
        if !ok {
          return Err(AddressError);
        }
      }
      if autoSave {
        saved := cells;
      }
      return Ok(());
    }

    /** append_row as written: writes the values from column 1 on into the
        used range's LAST row, overwriting it; a value past column XFD makes
        Excel raise after the cells before it are written. */
    method AppendRowAsWritten(values: seq<Cell>, autoSave: bool) returns (r: Result<(), Exception>)
      requires Valid()
      modifies this
      ensures Valid() && lastRow == old(lastRow)
      ensures r.Ok? <==> |values| <= MaxCols
      ensures r.Err? ==> r.error == AddressError && saved == old(saved)
      ensures cells == WriteRow(old(cells), old(lastRow), values[..Min(|values|, MaxCols)])
      ensures r.Ok? ==> saved == if autoSave then cells else old(saved)
    {
      var n := Min(|values|, MaxCols);
      cells := WriteRow(cells, lastRow, values[..n]);
      if |values| > MaxCols {
        return Err(AddressError);
      }
      if autoSave {
        saved := cells;
      }
      return Ok(());
    }

    /** append_row as its documentation describes it: the values go into the
        row after the used range (row 1 of an empty sheet), so no cell that
        was there changes. */
    method AppendRow(values: seq<Cell>, autoSave: bool) returns (r: Result<(), Exception>)
      requires Valid()
      modifies this
      ensures Valid()
      ensures r.Ok? <==> |values| <= MaxCols && (old(cells) == map[] || old(lastRow) < MaxRows)
      ensures r.Err? ==> r.error == AddressError && unchanged(this)
      ensures r.Ok? ==> cells == WriteRow(old(cells), if old(cells) == map[] then 1 else old(lastRow) + 1, values)
      ensures r.Ok? ==> forall row, c {:trigger old(At(cells, row, c))} ::
        old(At(cells, row, c)).Some? ==> At(cells, row, c) == old(At(cells, row, c))
      ensures r.Ok? ==> saved == if autoSave then cells else old(saved)
    {
      var target := if cells == map[] then 1 else lastRow + 1;
      if |values| > MaxCols || target > MaxRows {
        return Err(AddressError);
      }
      var before := cells;
      cells := WriteRow(cells, target, values);
      lastRow := Max(lastRow, target);
      forall row, c | At(before, row, c).Some? ensures At(cells, row, c) == At(before, row, c) {
        assert (row, c) in before;
      }
      if autoSave {
        saved := cells;
      }
      return Ok(());
    }

    /** delete_row: removes the row; the rows below move up. An address outside
        the sheet raises. */
    method DeleteRow(row: int, autoSave: bool) returns (r: Result<(), Exception>)
      requires Valid()
      modifies this
      ensures Valid()
      ensures !(1 <= row <= MaxRows) ==> r == Err(AddressError) && unchanged(this)
      ensures 1 <= row <= MaxRows ==>
        && r == Ok(())
        && (forall rw, c {:trigger At(cells, rw, c)} ::
              At(cells, rw, c) == if rw < row then old(At(cells, rw, c)) else old(At(cells, rw + 1, c)))
        && saved == if autoSave then cells else old(saved)
    {
      if row < 1 || row > MaxRows {
        return Err(AddressError);
      }
      DeleteRowAt(cells, row);
      DeleteRowInBox(cells, row, 1, lastRow, 1, MaxCols);
      cells := DeleteRowOf(cells, row);
      if row <= lastRow && lastRow > 1 {
        lastRow := lastRow - 1;
      }
      if autoSave {
        saved := cells;
      }
      return Ok(());
    }

    /** delete_col: removes the column; the columns to its right move left. */
    method DeleteCol(col: int, autoSave: bool)
      requires Valid() && 1 <= col <= MaxCols
      modifies this
      ensures Valid() && lastRow == old(lastRow)
      ensures forall rw, c {:trigger At(cells, rw, c)} ::
        At(cells, rw, c) == if c < col then old(At(cells, rw, c)) else old(At(cells, rw, c + 1))
      ensures saved == if autoSave then cells else old(saved)
    {
      DeleteColAt(cells, col);
      DeleteColInBox(cells, col, 1, lastRow, 1, MaxCols);
      cells := DeleteColOf(cells, col);
      if autoSave {
        saved := cells;
      }
    }
  }
}
