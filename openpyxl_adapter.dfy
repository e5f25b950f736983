/** OpenpyxlAdapter: the cell-value methods of the openpyxl backend. The sheet
    is a grid of cells with an extent of maxRow rows and maxCol columns (openpyxl's
    max_row and max_column): a column scan visits rows 1..maxRow, a row scan
    columns 1..maxCol. `cursor` is the row openpyxl's append last used (its
    `_current_row`): 0 for a sheet without cells, raised by every cell created,
    and reset to max_row (0 without cells) by deleting rows.
    `saved` is the grid as book.save last wrote it. A cell address outside rows
    1..MaxRows raises ValueError. */
module OpenpyxlSheet {
  import opened Wrappers
  import opened Cells

  function Max(a: int, b: int): int {
    if a >= b then a else b
  }

  /** The loop of insert_values in "append" mode over rows 1..rows of column
      `col`, for at least one value: a cursor walks down the column, an
      eligible cell takes the next value, and the walk ends when every value
      is placed or the rows run out. */
  method FillDown(g: Grid, rows: nat, col: int, values: seq<Cell>, startRow: int) returns (h: Grid)
    requires values != []
    ensures Column(h, rows, col) == Fill(Column(g, rows, col), 1, startRow, values)
    ensures forall row, c {:trigger At(h, row, c)} ::
      c != col || row < 1 || row > rows ==> At(h, row, c) == At(g, row, c)
    ensures forall p {:trigger p in h} :: p in h ==> p in g || (p.1 == col && 1 <= p.0 <= rows)
  {
    h := g;
    var currentRow := 1;
    var i := 0;
    var done := false;
    ghost var last := 0;
    FillingFrom(g, rows, col, startRow, values, 0);
    while currentRow <= rows && !done
      invariant 1 <= currentRow <= rows + 1
      invariant Filling(g, h, rows, col, startRow, values, currentRow - 1, i, last)
      invariant done ==> i == |values|
      invariant !done ==> i < |values|
      decreases rows + 1 - currentRow, !done
    {
      FillingStep(g, h, rows, col, startRow, values, currentRow - 1, i, last);
      if At(h, currentRow, col).None? && startRow <= currentRow {
        h := Put(h, currentRow, col, values[i]);
        i := i + 1;
        last := currentRow;
      }
      currentRow := currentRow + 1;
      if i == |values| {
        done := true;
      }
    }
    FillingEnd(g, h, rows, col, startRow, values, currentRow - 1, i, last);
  }

  /** The loop of append_value over rows 1..rows of column `col`: the cursor
      walks down until it meets a None cell at a row >= startRow. */
  method FindEmptyDown(g: Grid, rows: nat, col: int, startRow: int) returns (found: Option<nat>)
    ensures found == FirstEmptyRow(Column(g, rows, col), startRow)
  {
    ghost var view := Column(g, rows, col);
    var currentRow := 1;
    while currentRow <= rows
      invariant 1 <= currentRow <= rows + 1
      invariant forall j :: 0 <= j < currentRow - 1 && startRow <= j + 1 ==> view[j].Some?
    {
      if At(g, currentRow, col).None? && startRow <= currentRow {
        assert view[currentRow - 1].None?;
        return Some(currentRow);
      }
      currentRow := currentRow + 1;
    }
    return None;
  }

  class OpenpyxlAdapter {
    var cells: Grid
    var maxRow: nat
    var maxCol: nat
    var cursor: nat
    var saved: Grid

    ghost predicate Valid()
      reads this
    {
      && maxRow >= 1 && maxCol >= 1 && InBox(cells, 1, maxRow, 1, maxCol)
      // every cell lies at or above the cursor, so append never overwrites
      && InBox(cells, 1, cursor, 1, maxCol)
    }

    /** The cells of column `col` that a column scan visits. */
    function ColumnCells(col: int): seq<Cell>
      reads this
    {
      Column(cells, maxRow, col)
    }

    /** The cells of row `row` that a row scan visits. */
    function RowCells(row: int): seq<Cell>
      reads this
    {
      Row(cells, maxCol, row)
    }

    /** A sheet as load_workbook returns it. */
    constructor Load(g: Grid, rows: nat, cols: nat)
      requires rows >= 1 && cols >= 1
      requires InBox(g, 1, rows, 1, cols)
      ensures Valid()
      ensures cells == g && maxRow == rows && maxCol == cols && saved == g
      ensures cursor == if g == map[] then 0 else rows
    {
      cells, maxRow, maxCol, saved := g, rows, cols, g;
      cursor := if g == map[] then 0 else rows;
    }

    /** save: writes the workbook to its file. */
    method Save()
      modifies this
      ensures saved == cells
      ensures cells == old(cells) && maxRow == old(maxRow) && maxCol == old(maxCol) && cursor == old(cursor)
    {
      saved := cells;
    }

    /** get_value: the cell's value, None for a cell never written; openpyxl
        refuses a row outside 1..MaxRows. */
    method GetValue(col: int, row: int) returns (r: Result<Cell, Exception>)
      requires Valid() && 1 <= col <= MaxCols
      ensures row < 1 || row > MaxRows ==> r == Err(ValueError)
      ensures 1 <= row <= MaxRows ==> r.Ok? && r.value == At(cells, row, col)
      ensures 1 <= row <= MaxRows && (row > maxRow || col > maxCol) ==> r == Ok(None)
    {
      if row < 1 || row > MaxRows {
        return Err(ValueError);
      }
      return Ok(At(cells, row, col));
    }

    /** get_row_values: the row's cells up to the fifth consecutive None, those
        five excluded. Only None counts as blank here. `ws[0]` names no row
        and raises IndexError; a negative row or one past MaxRows is a bad
        coordinate, ValueError. */
    method GetRowValues(row: int) returns (r: Result<seq<Cell>, Exception>)
      ensures row == 0 ==> r == Err(IndexError)
      ensures row < 0 || row > MaxRows ==> r == Err(ValueError)
      ensures 1 <= row <= MaxRows ==> r.Ok? && OpenpyxlScanned(RowCells(row), NoneOnly, r.value)
    {
      if row == 0 {
        return Err(IndexError);
      }
      if row < 0 || row > MaxRows {
        return Err(ValueError);
      }
      var vals := OpenpyxlScan(Row(cells, maxCol, row), NoneOnly);
      return Ok(vals);
    }

    /** get_col_values: the column's cells up to the fifth consecutive falsy
        cell, those five excluded. Here 0, "" and False count as blank too. */
    method GetColValues(col: int) returns (vals: seq<Cell>)
      requires 1 <= col <= MaxCols
      ensures OpenpyxlScanned(ColumnCells(col), AnyFalsy, vals)
    {
      vals := OpenpyxlScan(Column(cells, maxRow, col), AnyFalsy);
    }

    /** insert_value: sets one cell, then saves when asked to. */
    method InsertValue(col: int, row: int, value: Cell, autoSave: bool) returns (r: Result<(), Exception>)
      requires Valid() && 1 <= col <= MaxCols
      modifies this
      ensures Valid()
      ensures row < 1 || row > MaxRows ==> r == Err(ValueError) && unchanged(this)
      ensures 1 <= row <= MaxRows ==> r == Ok(())
      ensures 1 <= row <= MaxRows ==> cells == old(cells)[(row, col) := value]
      ensures 1 <= row <= MaxRows ==> maxRow == Max(old(maxRow), row) && maxCol == Max(old(maxCol), col)
      ensures 1 <= row <= MaxRows ==> cursor == Max(old(cursor), row)
      ensures 1 <= row <= MaxRows ==> saved == if autoSave then cells else old(saved)
    {
      if row < 1 || row > MaxRows {
        return Err(ValueError);
      }
      cells := Put(cells, row, col, value);
      maxRow := Max(maxRow, row);
      maxCol := Max(maxCol, col);
      cursor := Max(cursor, row);
      if autoSave {
        saved := cells;
      }
      return Ok(());
    }

    /** append_value: `ws[column]` first creates the column's cells in rows
        1..maxRow, which takes max_column to the column and the cursor to
        maxRow; then the value goes into the first None cell of the column at a
        row >= startRow, and when there is none no cell changes. Saves when
        asked to. */
    method AppendValue(col: int, value: Cell, startRow: int, autoSave: bool)
      requires Valid() && 1 <= col <= MaxCols
      modifies this
      ensures Valid() && maxRow == old(maxRow)
      ensures maxCol == Max(old(maxCol), col) && cursor == Max(old(cursor), old(maxRow))
      ensures match FirstEmptyRow(old(ColumnCells(col)), startRow)
              case Some(row) => cells == old(cells)[(row, col) := value]
              case None => cells == old(cells)
      ensures saved == if autoSave then cells else old(saved)
    {
      var found := FindEmptyDown(cells, maxRow, col, startRow);
      maxCol, cursor := Max(maxCol, col), Max(cursor, maxRow);
      if found.Some? {
        cells := Put(cells, found.value, col, value);
      }
      if autoSave {
        saved := cells;
      }
    }

    /** The "append" mode of insert_values, without the save: `ws[column]`
        creates the column's cells as in append_value, then the column's None
        cells at rows >= startRow receive the values top-down; cells holding a
        value are skipped. With no values, an eligible first row raises
        IndexError (values[0]). */
    method FillColumn(col: int, values: seq<Cell>, startRow: int) returns (r: Result<(), Exception>)
      requires Valid() && 1 <= col <= MaxCols
      modifies this
      ensures Valid() && saved == old(saved) && maxRow == old(maxRow)
      ensures maxCol == Max(old(maxCol), col) && cursor == Max(old(cursor), old(maxRow))
      ensures r.Err? <==> values == [] && old(At(cells, 1, col)).None? && startRow <= 1
      ensures r.Err? ==> r.error == IndexError && cells == old(cells)
      ensures ColumnCells(col) == Fill(old(ColumnCells(col)), 1, startRow, values)
      ensures forall row, c {:trigger At(cells, row, c)} ::
        c != col || row < 1 || row > maxRow ==> At(cells, row, c) == old(At(cells, row, c))
    {
      ghost var view := ColumnCells(col);
      maxCol, cursor := Max(maxCol, col), Max(cursor, maxRow);
      if values == [] {
        // The loop's first visit is row 1: writing values[0] there raises,
        // otherwise the loop stops at once since every value is placed.
        if At(cells, 1, col).None? && startRow <= 1 {
          return Err(IndexError);
        }
        FillNothing(view, 1, startRow, values);
        return Ok(());
      }
      cells := FillDown(cells, maxRow, col, values, startRow);
      return Ok(());
    }

    /** The "insert" mode of insert_values, without the save: rows startRow,
        startRow + 1, ... of the column are set to the values in turn, whatever
        they held, until a row outside 1..MaxRows raises ValueError; the rows
        written before that keep their new values. */
    method WriteColumn(col: int, values: seq<Cell>, startRow: int) returns (r: Result<(), Exception>)
      requires Valid() && 1 <= col <= MaxCols
      modifies this
      ensures Valid() && saved == old(saved)
      ensures r.Err? <==> values != [] && (startRow < 1 || startRow + |values| - 1 > MaxRows)
      ensures r.Err? ==> r.error == ValueError
      ensures forall row, c {:trigger At(cells, row, c)} ::
        At(cells, row, c)
        == if c == col && 1 <= startRow <= row < startRow + |values| && row <= MaxRows then values[row - startRow]
           else old(At(cells, row, c))
      ensures maxRow == Max(old(maxRow), LastInserted(startRow, |values|))
      ensures cursor == Max(old(cursor), LastInserted(startRow, |values|))
      ensures maxCol == if LastInserted(startRow, |values|) > 0 then Max(old(maxCol), col) else old(maxCol)
    {
      var g, ok, last := WriteDown(cells, col, values, startRow);
      cells, maxRow, cursor := g, Max(maxRow, last), Max(cursor, last);
      if last > 0 {
        maxCol := Max(maxCol, col);
      }
      r := if ok then Ok(()) else Err(ValueError);
    }

    /** insert_values: "append" fills the column's empty cells, "insert"
        overwrites rows from startRow on, any other mode writes nothing. Saves
        when asked to and nothing was raised. */
    method InsertValues(col: int, values: seq<Cell>, mode: string, startRow: int, autoSave: bool)
      returns (r: Result<(), Exception>)
      requires Valid() && 1 <= col <= MaxCols
      modifies this
      ensures Valid()
      ensures r.Err? ==> saved == old(saved)
      ensures mode == "append" ==>
        && (r.Err? <==> values == [] && old(At(cells, 1, col)).None? && startRow <= 1)
        && (r.Err? ==> r.error == IndexError)
        && ColumnCells(col) == Fill(old(ColumnCells(col)), 1, startRow, values)
        && (forall row, c {:trigger At(cells, row, c)} ::
              c != col || row < 1 || row > maxRow ==> At(cells, row, c) == old(At(cells, row, c)))
        && maxRow == old(maxRow) && maxCol == Max(old(maxCol), col) && cursor == Max(old(cursor), old(maxRow))
      ensures mode == "insert" ==>
        && (r.Err? <==> values != [] && (startRow < 1 || startRow + |values| - 1 > MaxRows))
        && (r.Err? ==> r.error == ValueError)
        && (forall row, c {:trigger At(cells, row, c)} ::
              At(cells, row, c)
              == if c == col && 1 <= startRow <= row < startRow + |values| && row <= MaxRows then values[row - startRow]
                 else old(At(cells, row, c)))
        && maxRow == Max(old(maxRow), LastInserted(startRow, |values|))
        && cursor == Max(old(cursor), LastInserted(startRow, |values|))
        && maxCol == (if LastInserted(startRow, |values|) > 0 then Max(old(maxCol), col) else old(maxCol))
      ensures mode != "append" && mode != "insert" ==>
        r.Ok? && cells == old(cells) && maxRow == old(maxRow) && maxCol == old(maxCol) && cursor == old(cursor)
      ensures r.Ok? ==> saved == if autoSave then cells else old(saved)
    {
      if mode == "append" {
        r := FillColumn(col, values, startRow);
      } else if mode == "insert" {
        r := WriteColumn(col, values, startRow);
      } else {
        r := Ok(());
      }
      if r.Ok? && autoSave {
        saved := cells;
      }
    }

    /** append_row: openpyxl's append writes the values into the row after its
        cursor, from column 1 on, and moves the cursor to that row even when
        the list is empty. On a sheet without cells the cursor is 0, so the
        values go into row 1. */
    method AppendRow(values: seq<Cell>, autoSave: bool)
      requires Valid()
      modifies this
      ensures Valid()
      ensures forall row, c {:trigger At(cells, row, c)} ::
        At(cells, row, c) == if row == old(cursor) + 1 && 1 <= c <= |values| then values[c - 1] else old(At(cells, row, c))
      ensures forall row, c {:trigger At(cells, row, c)} ::
        old(At(cells, row, c)).Some? ==> At(cells, row, c) == old(At(cells, row, c))
      ensures cursor == old(cursor) + 1
      ensures maxRow == if values == [] then old(maxRow) else Max(old(maxRow), old(cursor) + 1)
      ensures maxCol == Max(old(maxCol), |values|)
      ensures saved == if autoSave then cells else old(saved)
    {
      var row := cursor + 1;
      cells, cursor := WriteRow(cells, row, values), row;
      if values != [] {
        maxRow, maxCol := Max(maxRow, row), Max(maxCol, |values|);
      }
      if autoSave {
        saved := cells;
      }
    }

    /** delete_row: removes the row; the rows below move up. delete_rows then
        resets the append cursor to max_row, or to 0 when no cell is left, the
        rule load_workbook follows too. */
    method DeleteRow(row: int, autoSave: bool)
      requires Valid() && row >= 1
      modifies this
      ensures Valid()
      ensures forall r, c {:trigger At(cells, r, c)} ::
        At(cells, r, c) == if r < row then old(At(cells, r, c)) else old(At(cells, r + 1, c))
      ensures maxRow == if row <= old(maxRow) && old(maxRow) > 1 then old(maxRow) - 1 else old(maxRow)
      ensures maxCol == old(maxCol)
      ensures cursor == if cells == map[] then 0 else maxRow
      ensures saved == if autoSave then cells else old(saved)
    {
      DeleteRowAt(cells, row);
      DeleteRowInBox(cells, row, 1, maxRow, 1, maxCol);
      cells := DeleteRowOf(cells, row);
      if row <= maxRow && maxRow > 1 {
        maxRow := maxRow - 1;
      }
      cursor := if cells == map[] then 0 else maxRow;
      if autoSave {
        saved := cells;
      }
    }

    /** delete_col: deletes the ROW whose number is the column's index (it calls
        delete_rows), so column `col` itself stays. */
    method DeleteCol(col: int, autoSave: bool)
      requires Valid() && 1 <= col <= MaxCols
      modifies this
      ensures Valid()
      ensures forall r, c {:trigger At(cells, r, c)} ::
        At(cells, r, c) == if r < col then old(At(cells, r, c)) else old(At(cells, r + 1, c))
      ensures maxRow == if col <= old(maxRow) && old(maxRow) > 1 then old(maxRow) - 1 else old(maxRow)
      ensures maxCol == old(maxCol)
      ensures cursor == if cells == map[] then 0 else maxRow
      ensures saved == if autoSave then cells else old(saved)
    {
      DeleteRow(col, autoSave);
    }
  }
}
