/** The cell-value grid shared by the three spreadsheet adapters, and the
    specifications of the scans and bulk writes they perform on one column or
    one row of it. A row or column is seen as the sequence of the cells the
    adapter visits, in order; a cell is a value or Python's None. */
module Cells {
  import opened Wrappers

  /** A cell value: a number, a string or a boolean. */
  datatype Value = Num(n: int) | Text(s: string) | Flag(b: bool)

  /** None is an empty cell. */
  type Cell = Option<Value>

  /** Python truthiness: None, 0, "" and False are falsy. */
  predicate Falsy(c: Cell) {
    match c
    case None => true
    case Some(Num(n)) => n == 0
    case Some(Text(s)) => s == ""
    case Some(Flag(b)) => !b
  }

  /** The size of an Excel worksheet. */
  const MaxRows: nat := 1048576
  const MaxCols: nat := 16384

  /** Cells by (row, column), both counted from 1; a missing key is None. */
  type Grid = map<(int, int), Cell>

  function At(g: Grid, row: int, col: int): Cell {
    if (row, col) in g then g[(row, col)] else None
  }

  /** Rows 1..rows of column `col`, top-down. */
  function Column(g: Grid, rows: nat, col: int): (v: seq<Cell>)
    ensures |v| == rows
    ensures forall i :: 0 <= i < rows ==> v[i] == At(g, i + 1, col)
  {
    seq(rows, i => At(g, i + 1, col))
  }

  /** Columns 1..cols of row `row`, left to right. */
  function Row(g: Grid, cols: nat, row: int): (v: seq<Cell>)
    ensures |v| == cols
    ensures forall j :: 0 <= j < cols ==> v[j] == At(g, row, j + 1)
  {
    seq(cols, j => At(g, row, j + 1))
  }

  /** The grid with one cell set. */
  function Put(g: Grid, row: int, col: int, c: Cell): (h: Grid)
    ensures forall r, k {:trigger At(h, r, k)} :: At(h, r, k) == if r == row && k == col then c else At(g, r, k)
    ensures h.Keys == g.Keys + {(row, col)}
  {
    g[(row, col) := c]
  }

  /** The grid with row `row` set to `values` from column 1 on. */
  function WriteRow(g: Grid, row: int, values: seq<Cell>): (h: Grid)
    ensures forall r, c {:trigger At(h, r, c)} ::
      At(h, r, c) == if r == row && 1 <= c <= |values| then values[c - 1] else At(g, r, c)
    ensures forall p {:trigger p in h} :: p in h ==> p in g || (p.0 == row && 1 <= p.1 <= |values|)
    decreases |values|
  {
    if values == [] then g
    else Put(WriteRow(g, row, values[..|values| - 1]), row, |values|, values[|values| - 1])
  }

  /** Every cell of the grid lies in rows rowLo..rowHi and columns colLo..colHi. */
  predicate InBox(g: Grid, rowLo: int, rowHi: int, colLo: int, colHi: int) {
    forall p :: p in g ==> rowLo <= p.0 <= rowHi && colLo <= p.1 <= colHi
  }

  function ShiftUp(p: (int, int), row: int): (int, int) {
    if p.0 < row then p else (p.0 - 1, p.1)
  }

  function ShiftLeft(p: (int, int), col: int): (int, int) {
    if p.1 < col then p else (p.0, p.1 - 1)
  }

  /** The grid after deleting a whole row: the rows below it move up by one. */
  function DeleteRowOf(g: Grid, row: int): Grid {
    map p | p in g && p.0 != row :: ShiftUp(p, row) := g[p]
  }

  /** The grid after deleting a whole column: the columns to its right move
      left by one. */
  function DeleteColOf(g: Grid, col: int): Grid {
    map p | p in g && p.1 != col :: ShiftLeft(p, col) := g[p]
  }

  /** After a row deletion, the rows above keep their cells and every row
      below holds what the next row held. */
  lemma DeleteRowAt(g: Grid, row: int)
    ensures forall r, c {:trigger At(DeleteRowOf(g, row), r, c)} :: At(DeleteRowOf(g, row), r, c) == if r < row then At(g, r, c) else At(g, r + 1, c)
  {
    var m := DeleteRowOf(g, row);
    forall r, c ensures At(m, r, c) == if r < row then At(g, r, c) else At(g, r + 1, c) {
      var src := if r < row then (r, c) else (r + 1, c);
      if (r, c) in m {
        var p :| p in g && p.0 != row && ShiftUp(p, row) == (r, c);
        assert p == src;
      }
      if src in g {
        assert ShiftUp(src, row) == (r, c);
      }
    }
  }

  /** After a column deletion, the columns to the left keep their cells and
      every column to the right holds what the next column held. */
  lemma DeleteColAt(g: Grid, col: int)
    ensures forall r, c {:trigger At(DeleteColOf(g, col), r, c)} :: At(DeleteColOf(g, col), r, c) == if c < col then At(g, r, c) else At(g, r, c + 1)
  {
    var m := DeleteColOf(g, col);
    forall r, c ensures At(m, r, c) == if c < col then At(g, r, c) else At(g, r, c + 1) {
      var src := if c < col then (r, c) else (r, c + 1);
      if (r, c) in m {
        var p :| p in g && p.1 != col && ShiftLeft(p, col) == (r, c);
        assert p == src;
      }
      if src in g {
        assert ShiftLeft(src, col) == (r, c);
      }
    }
  }

  /** Deleting a row keeps the grid in its box, and a row inside the box
      takes one row off it. */
  lemma DeleteRowInBox(g: Grid, row: int, rowLo: int, rowHi: int, colLo: int, colHi: int)
    requires InBox(g, rowLo, rowHi, colLo, colHi) && rowLo <= row
    ensures InBox(DeleteRowOf(g, row), rowLo, if row <= rowHi then rowHi - 1 else rowHi, colLo, colHi)
  {
    var d := DeleteRowOf(g, row);
    forall q | q in d
      ensures rowLo <= q.0 <= (if row <= rowHi then rowHi - 1 else rowHi) && colLo <= q.1 <= colHi
    {
      var p :| p in g && p.0 != row && ShiftUp(p, row) == q;
    }
  }

  /** Deleting a column keeps the grid in its box, and a column inside the box
      takes one column off it. */
  lemma DeleteColInBox(g: Grid, col: int, rowLo: int, rowHi: int, colLo: int, colHi: int)
    requires InBox(g, rowLo, rowHi, colLo, colHi) && colLo <= col
    ensures InBox(DeleteColOf(g, col), rowLo, rowHi, colLo, if col <= colHi then colHi - 1 else colHi)
  {
    var d := DeleteColOf(g, col);
    forall q | q in d
      ensures rowLo <= q.0 <= rowHi && colLo <= q.1 <= (if col <= colHi then colHi - 1 else colHi)
    {
      var p :| p in g && p.1 != col && ShiftLeft(p, col) == q;
    }
  }

  /** Setting one cell of a column sets one element of its view. */
  lemma ColumnPut(g: Grid, rows: nat, row: int, col: int, c: Cell)
    requires 1 <= row <= rows
    ensures Column(Put(g, row, col, c), rows, col) == Column(g, rows, col)[row - 1 := c]
  {
  }

  /** Which cells a scan counts as blank: only None, or every falsy value. */
  datatype Blank = NoneOnly | AnyFalsy

  predicate IsBlank(rule: Blank, c: Cell) {
    match rule
    case NoneOnly => c.None?
    case AnyFalsy => Falsy(c)
  }

  /** The k cells of `view` from index i on exist and are all blank. */
  predicate RunAt(view: seq<Cell>, rule: Blank, i: int, k: nat) {
    0 <= i && i + k <= |view| && forall j :: i <= j < i + k ==> IsBlank(rule, view[j])
  }

  /** `view` holds no k consecutive blanks. */
  ghost predicate NoRun(view: seq<Cell>, rule: Blank, k: nat) {
    forall i :: !RunAt(view, rule, i, k)
  }

  lemma NoRunPrefix(view: seq<Cell>, rule: Blank, k: nat, n: nat)
    requires n <= |view| && NoRun(view, rule, k)
    ensures NoRun(view[..n], rule, k)
  {
    forall i ensures !RunAt(view[..n], rule, i, k) {
      if RunAt(view[..n], rule, i, k) {
        assert RunAt(view, rule, i, k);
      }
    }
  }

  // ---------------------------------------------------------------------------
  // Scans that stop after a run of blanks

  /** What the openpyxl scan of a row or column returns for the cells `view` it
      visits: it stops at the fifth consecutive blank and drops those five
      blanks; a scan that never sees five in a row returns every cell. */
  ghost predicate OpenpyxlScanned(view: seq<Cell>, rule: Blank, vals: seq<Cell>) {
    && vals <= view
    && ((NoRun(view, rule, 5) && vals == view)
        || (RunAt(view, rule, |vals|, 5) && NoRun(view[..|vals| + 4], rule, 5)))
  }

  /** The loop of OpenpyxlAdapter.get_row_values (rule NoneOnly: `is not None`)
      and get_col_values (rule AnyFalsy: truthiness). */
  method OpenpyxlScan(view: seq<Cell>, rule: Blank) returns (vals: seq<Cell>)
    ensures OpenpyxlScanned(view, rule, vals)
  {
    var read: seq<Cell> := [];
    var noneCounter := 0;
    var i := 0;
    while i < |view| && noneCounter < 5
      invariant 0 <= i <= |view| && read == view[..i]
      invariant 0 <= noneCounter <= i && noneCounter <= 5
      invariant forall j :: i - noneCounter <= j < i ==> IsBlank(rule, view[j])
      invariant noneCounter < i ==> !IsBlank(rule, view[i - noneCounter - 1])
      invariant noneCounter < 5 ==> NoRun(view[..i], rule, 5)
      invariant noneCounter == 5 ==> NoRun(view[..i - 1], rule, 5)
    {
      var cell := view[i];
      read := read + [cell];
      if !IsBlank(rule, cell) {
        noneCounter := 0;
      } else {
        noneCounter := noneCounter + 1;
      }
      i := i + 1;
      forall s | noneCounter < 5 ensures !RunAt(view[..i], rule, s, 5) {
        if 0 <= s && s + 5 <= i - 1 {
          assert RunAt(view[..i], rule, s, 5) == RunAt(view[..i - 1], rule, s, 5);
        } else if 0 <= s && s + 5 == i {
          assert s <= i - noneCounter - 1 < s + 5 && !IsBlank(rule, view[..i][i - noneCounter - 1]);
        }
      }
    }
    if noneCounter >= 5 {
      assert RunAt(view, rule, i - 5, 5);
      vals := read[..|read| - 5];
    } else {
      assert view[..i] == view;
      vals := read;
    }
  }

  /** A run of blanks inside the first n cells is a run of the first n cells. */
  lemma RunInPrefix(view: seq<Cell>, rule: Blank, i: int, k: nat, n: nat)
    ensures RunAt(view, rule, i, k) && i + k <= n <= |view| ==> RunAt(view[..n], rule, i, k)
  {
  }

  /** The openpyxl scan result is determined by the cells visited. */
  lemma OpenpyxlScanDeterminate(view: seq<Cell>, rule: Blank, a: seq<Cell>, b: seq<Cell>)
    requires OpenpyxlScanned(view, rule, a) && OpenpyxlScanned(view, rule, b)
    ensures a == b
  {
    RunInPrefix(view, rule, |a|, 5, |b| + 4);
    RunInPrefix(view, rule, |b|, 5, |a| + 4);
    assert |a| == |b|;
  }

  /** An openpyxl scan never returns five consecutive blanks. */
  lemma OpenpyxlScanHasNoRun(view: seq<Cell>, rule: Blank, vals: seq<Cell>)
    requires OpenpyxlScanned(view, rule, vals)
    ensures NoRun(vals, rule, 5)
  {
    if NoRun(view, rule, 5) && vals == view {
    } else {
      NoRunPrefix(view[..|vals| + 4], rule, 5, |vals|);
      assert view[..|vals| + 4][..|vals|] == vals;
    }
  }

  /** What the xlwings scan of a row or column returns for the cells `view` it
      can visit, and whether it broke off. It breaks at a blank that follows five
      counted blanks, that is at the sixth blank in a row, and then drops five,
      so the result still ends with one blank. A scan that reaches the end of
      `view` drops the last five cells when exactly they are blank. */
  ghost predicate XlwingsScanned(view: seq<Cell>, vals: seq<Cell>, broke: bool) {
    && vals <= view
    && if broke then
         |vals| >= 1 && RunAt(view, AnyFalsy, |vals| - 1, 6)
         && NoRun(view[..|vals| + 4], AnyFalsy, 6)
       else
         NoRun(view, AnyFalsy, 6)
         && (if RunAt(view, AnyFalsy, |view| - 5, 5) then |vals| + 5 == |view| else vals == view)
  }

  /** The loop of XlwingsAdapter.get_row_values and get_col_values. */
  method XlwingsScan(view: seq<Cell>) returns (vals: seq<Cell>, broke: bool)
    ensures XlwingsScanned(view, vals, broke)
  {
    var read: seq<Cell> := [];
    var noneCounter := 0;
    var i := 0;
    broke := false;
    while i < |view| && !broke
      invariant 0 <= i <= |view| && read == view[..i]
      invariant 0 <= noneCounter <= i && noneCounter <= 5
      invariant !broke ==> forall j :: i - noneCounter <= j < i ==> Falsy(view[j])
      invariant !broke && noneCounter < 5 && noneCounter < i ==> !Falsy(view[i - noneCounter - 1])
      invariant !broke ==> NoRun(view[..i], AnyFalsy, 6)
      invariant broke ==> noneCounter == 5 && i >= 6 && RunAt(view, AnyFalsy, i - 6, 6)
      invariant broke ==> NoRun(view[..i - 1], AnyFalsy, 6)
    {
      var value := view[i];
      read := read + [value];
      ghost var before := noneCounter;
      if !Falsy(value) {
        noneCounter := 0;
      } else if noneCounter >= 5 {
        broke := true;
      } else {
        noneCounter := noneCounter + 1;
      }
      i := i + 1;
      if broke {
        assert RunAt(view, AnyFalsy, i - 6, 6);
      } else {
        forall s ensures !RunAt(view[..i], AnyFalsy, s, 6) {
          if 0 <= s && s + 6 <= i - 1 {
            assert RunAt(view[..i], AnyFalsy, s, 6) == RunAt(view[..i - 1], AnyFalsy, s, 6);
          } else if 0 <= s && s + 6 == i {
            var w := if Falsy(value) then i - 2 - before else i - 1;
            assert s <= w < s + 6 && !Falsy(view[..i][w]);
          }
        }
      }
    }
    if noneCounter >= 5 {
      vals := read[..|read| - 5];
    } else {
      vals := read;
    }
    if !broke {
      assert view[..i] == view;
      if noneCounter < 5 && i >= 5 {
        assert !Falsy(view[i - noneCounter - 1]);
      }
    }
  }

  /** After breaking off, the xlwings scan result ends with a blank cell. */
  lemma XlwingsBrokenScanEndsBlank(view: seq<Cell>, vals: seq<Cell>)
    requires XlwingsScanned(view, vals, true)
    ensures |vals| >= 1 && Falsy(vals[|vals| - 1])
  {
    assert vals[|vals| - 1] == view[|vals| - 1];
  }

  /** The xlwings scan never returns six consecutive blanks. */
  lemma XlwingsScanHasNoRun(view: seq<Cell>, vals: seq<Cell>, broke: bool)
    requires XlwingsScanned(view, vals, broke)
    ensures NoRun(vals, AnyFalsy, 6)
  {
    if broke {
      NoRunPrefix(view[..|vals| + 4], AnyFalsy, 6, |vals|);
      assert view[..|vals| + 4][..|vals|] == vals;
    } else {
      NoRunPrefix(view, AnyFalsy, 6, |vals|);
      assert view[..|vals|] == vals;
    }
  }

  // ---------------------------------------------------------------------------
  // Finding the first empty cell, and filling empty cells

  /** The first row at or after both `from` and `start` whose cell is None, in
      the rows `from`..|view| of a column whose row r is view[r - 1]. */
  function FirstEmptyFrom(view: seq<Cell>, start: int, from: nat): (r: Option<nat>)
    requires 1 <= from <= |view| + 1
    ensures r.Some? ==> from <= r.value <= |view| && start <= r.value && view[r.value - 1].None?
    ensures r.Some? ==> forall j :: from <= j + 1 < r.value && start <= j + 1 ==> view[j].Some?
    ensures r.None? ==> forall j :: from <= j + 1 <= |view| && start <= j + 1 ==> view[j].Some?
    decreases |view| + 1 - from
  {
    if from > |view| then None
    else if view[from - 1].None? && start <= from then Some(from)
    else FirstEmptyFrom(view, start, from + 1)
  }

  /** The first row at or after `start` whose cell is None, if any. */
  function FirstEmptyRow(view: seq<Cell>, start: int): (r: Option<nat>)
    ensures r.Some? ==> 1 <= r.value <= |view| && start <= r.value && view[r.value - 1].None?
    ensures r.Some? ==> forall j :: 0 <= j < r.value - 1 && start <= j + 1 ==> view[j].Some?
    ensures r.None? ==> forall j :: 0 <= j < |view| && start <= j + 1 ==> view[j].Some?
  {
    FirstEmptyFrom(view, start, 1)
  }

  /** Cell i of `view`, which is row `row` + i, can receive a value: it is None
      and at or after row `start`. */
  predicate Eligible(view: seq<Cell>, row: int, start: int, i: int)
    requires 0 <= i < |view|
  {
    view[i].None? && start <= row + i
  }

  /** The number of eligible cells in `view`, whose first cell is row `row`. */
  function Empties(view: seq<Cell>, row: int, start: int): nat
    decreases |view|
  {
    if view == [] then 0
    else (if Eligible(view, row, start, 0) then 1 else 0) + Empties(view[1..], row + 1, start)
  }

  /** The column `view` (first cell at row `row`) after an "append" bulk write:
      the eligible cells receive `values` top-down until either runs out. */
  function Fill(view: seq<Cell>, row: int, start: int, values: seq<Cell>): (w: seq<Cell>)
    ensures |w| == |view|
    decreases |view|
  {
    if view == [] || values == [] then view
    else if Eligible(view, row, start, 0) then [values[0]] + Fill(view[1..], row + 1, start, values[1..])
    else [view[0]] + Fill(view[1..], row + 1, start, values)
  }

  function Min(a: int, b: int): int {
    if a <= b then a else b
  }

  /** Cell i after the fill: an eligible cell with c eligible cells above it
      receives values[c] when there is one; every other cell is unchanged. So
      no cell holding a value is overwritten, rows above `start` are untouched,
      and values land in order in the topmost eligible cells. */
  lemma {:induction false} FillAt(view: seq<Cell>, row: int, start: int, values: seq<Cell>, i: nat)
    requires i < |view|
    ensures Fill(view, row, start, values)[i]
            == if Eligible(view, row, start, i) && Empties(view[..i], row, start) < |values|
               then values[Empties(view[..i], row, start)]
               else view[i]
    decreases i
  {
    if values == [] {
    } else if i == 0 {
      assert view[..0] == [];
    } else {
      var rest := if Eligible(view, row, start, 0) then values[1..] else values;
      FillAt(view[1..], row + 1, start, rest, i - 1);
      assert view[..i][1..] == view[1..][..i - 1];
      assert view[..i][0] == view[0];
    }
  }

  lemma ConcatAssoc(x: seq<Cell>, y: seq<Cell>, z: seq<Cell>)
    ensures x + (y + z) == (x + y) + z
  {
  }

  /** The eligible cells of `a + b` are those of `a` and those of `b`. */
  lemma {:induction false} EmptiesSplit(a: seq<Cell>, b: seq<Cell>, row: int, start: int)
    ensures Empties(a + b, row, start) == Empties(a, row, start) + Empties(b, row + |a|, start)
    decreases |a|
  {
    if a == [] {
      assert a + b == b;
    } else {
      assert (a + b)[1..] == a[1..] + b;
      assert (a + b)[0] == a[0];
      EmptiesSplit(a[1..], b, row + 1, start);
    }
  }

  /** A fill of `a + b` is a fill of `a` followed by a fill of `b` with the
      values `a` did not take. */
  lemma {:induction false} FillSplit(a: seq<Cell>, b: seq<Cell>, row: int, start: int, values: seq<Cell>)
    ensures Empties(a + b, row, start) == Empties(a, row, start) + Empties(b, row + |a|, start)
    ensures Fill(a + b, row, start, values)
            == Fill(a, row, start, values)
               + Fill(b, row + |a|, start, values[Min(|values|, Empties(a, row, start))..])
    decreases |a|, 1
  {
    EmptiesSplit(a, b, row, start);
    if a == [] {
      assert a + b == b;
    } else if values == [] {
      assert values[Min(|values|, Empties(a, row, start))..] == [];
    } else if Eligible(a, row, start, 0) {
      FillSplitTaken(a, b, row, start, values);
    } else {
      FillSplitSkipped(a, b, row, start, values);
    }
  }

  /** FillSplit when the first cell of `a` takes the first value. */
  lemma {:induction false} FillSplitTaken(a: seq<Cell>, b: seq<Cell>, row: int, start: int, values: seq<Cell>)
    requires a != [] && values != [] && Eligible(a, row, start, 0)
    ensures Fill(a + b, row, start, values)
            == Fill(a, row, start, values)
               + Fill(b, row + |a|, start, values[Min(|values|, Empties(a, row, start))..])
    decreases |a|, 0
  {
    var ab := a + b;
    assert ab[1..] == a[1..] + b;
    assert ab[0] == a[0];
    var rest := values[1..];
    FillSplit(a[1..], b, row + 1, start, rest);
    assert Empties(a, row, start) == 1 + Empties(a[1..], row + 1, start);
    assert rest[Min(|rest|, Empties(a[1..], row + 1, start))..]
        == values[Min(|values|, Empties(a, row, start))..];
    var tail := Fill(b, row + |a|, start, values[Min(|values|, Empties(a, row, start))..]);
    assert row + 1 + |a[1..]| == row + |a|;
    assert Fill(ab, row, start, values) == [values[0]] + (Fill(a[1..], row + 1, start, rest) + tail);
    assert Fill(a, row, start, values) == [values[0]] + Fill(a[1..], row + 1, start, rest);
    ConcatAssoc([values[0]], Fill(a[1..], row + 1, start, rest), tail);
  }

  /** FillSplit when the first cell of `a` is passed over. */
  lemma {:induction false} FillSplitSkipped(a: seq<Cell>, b: seq<Cell>, row: int, start: int, values: seq<Cell>)
    requires a != [] && values != [] && !Eligible(a, row, start, 0)
    ensures Fill(a + b, row, start, values)
            == Fill(a, row, start, values)
               + Fill(b, row + |a|, start, values[Min(|values|, Empties(a, row, start))..])
    decreases |a|, 0
  {
    var ab := a + b;
    assert ab[1..] == a[1..] + b;
    assert ab[0] == a[0];
    FillSplit(a[1..], b, row + 1, start, values);
    assert Empties(a, row, start) == Empties(a[1..], row + 1, start);
    var tail := Fill(b, row + |a|, start, values[Min(|values|, Empties(a, row, start))..]);
    assert row + 1 + |a[1..]| == row + |a|;
    assert Fill(ab, row, start, values) == [a[0]] + (Fill(a[1..], row + 1, start, values) + tail);
    assert Fill(a, row, start, values) == [a[0]] + Fill(a[1..], row + 1, start, values);
    ConcatAssoc([a[0]], Fill(a[1..], row + 1, start, values), tail);
  }

  /** The fill of the first k + 1 cells is the fill of the first k cells
      followed by what cell k becomes. */
  lemma FillStep(view: seq<Cell>, start: int, values: seq<Cell>, k: nat)
    requires k < |view|
    ensures Empties(view[..k + 1], 1, start)
            == Empties(view[..k], 1, start) + (if Eligible(view, 1, start, k) then 1 else 0)
    ensures Fill(view[..k + 1], 1, start, values)
            == Fill(view[..k], 1, start, values)
               + [if Eligible(view, 1, start, k) && Empties(view[..k], 1, start) < |values|
                  then values[Empties(view[..k], 1, start)] else view[k]]
  {
    FillSplit(view[..k], [view[k]], 1, start, values);
    assert view[..k + 1] == view[..k] + [view[k]];
  }

  /** One step of a cursor that fills column `col` of a grid top-down: with
      rows above k + 1 already filled, row k + 1 is eligible exactly when the
      view says so, and writing the next value there (or skipping it) leaves
      the rows down to k + 1 filled. */
  lemma FillColumnStep(h: Grid, rows: nat, col: int, view: seq<Cell>, start: int, values: seq<Cell>, k: nat, i: nat)
    requires k < rows == |view|
    requires i == Min(|values|, Empties(view[..k], 1, start)) && i < |values|
    requires Column(h, rows, col) == Fill(view[..k], 1, start, values) + view[k..]
    ensures (At(h, k + 1, col).None? && start <= k + 1) == Eligible(view, 1, start, k)
    ensures Eligible(view, 1, start, k) ==>
      && i + 1 == Min(|values|, Empties(view[..k + 1], 1, start))
      && Column(Put(h, k + 1, col, values[i]), rows, col) == Fill(view[..k + 1], 1, start, values) + view[k + 1..]
    ensures !Eligible(view, 1, start, k) ==>
      && i == Min(|values|, Empties(view[..k + 1], 1, start))
      && Column(h, rows, col) == Fill(view[..k + 1], 1, start, values) + view[k + 1..]
  {
    var fill := Fill(view[..k], 1, start, values);
    assert |fill| == k;
    assert Column(h, rows, col)[k] == view[k];
    FillStep(view, start, values, k);
    if Eligible(view, 1, start, k) {
      FillColumnTake(h, rows, col, view, start, values, k, i);
    } else {
      assert view[k..] == [view[k]] + view[k + 1..];
      ConcatAssoc(fill, [view[k]], view[k + 1..]);
    }
  }

  /** FillColumnStep at an eligible row: it takes value i. */
  lemma FillColumnTake(h: Grid, rows: nat, col: int, view: seq<Cell>, start: int, values: seq<Cell>, k: nat, i: nat)
    requires k < rows == |view| && i < |values| && Eligible(view, 1, start, k)
    requires i == Empties(view[..k], 1, start)
    requires Column(h, rows, col) == Fill(view[..k], 1, start, values) + view[k..]
    requires Fill(view[..k + 1], 1, start, values) == Fill(view[..k], 1, start, values) + [values[i]]
    ensures Column(Put(h, k + 1, col, values[i]), rows, col) == Fill(view[..k + 1], 1, start, values) + view[k + 1..]
  {
    var fill := Fill(view[..k], 1, start, values);
    ColumnPut(h, rows, k + 1, col, values[i]);
    assert view[k..] == [view[k]] + view[k + 1..];
    assert (fill + ([view[k]] + view[k + 1..]))[k := values[i]] == (fill + [values[i]]) + view[k + 1..];
  }

  /** The state of a cursor that fills column `col` of `g` top-down: the
      first `done` of rows 1..rows have been walked, `i` values are placed,
      those rows hold their fill and the rest of the column is as it was, no
      other cell has changed, and only rows up to `written` of the column
      can have been added to the grid. */
  ghost predicate Filling(g: Grid, h: Grid, rows: nat, col: int, start: int, values: seq<Cell>, done: nat, i: nat, written: int)
  {
    var view := Column(g, rows, col);
    && done <= rows && written <= done
    && i == Min(|values|, Empties(view[..done], 1, start))
    && Column(h, rows, col) == Fill(view[..done], 1, start, values) + view[done..]
    && (forall row, c {:trigger At(h, row, c)} :: c != col || row < 1 || row > rows ==> At(h, row, c) == At(g, row, c))
    && (forall p {:trigger p in h} :: p in h ==> p in g || (p.1 == col && 1 <= p.0 <= written))
  }

  /** Before the cursor reaches `start`, nothing is placed. */
  lemma FillingFrom(g: Grid, rows: nat, col: int, start: int, values: seq<Cell>, done: nat)
    requires done <= rows && (done == 0 || done < start)
    ensures Filling(g, g, rows, col, start, values, done, 0, 0)
  {
    var view := Column(g, rows, col);
    if done > 0 {
      NoEmptiesAbove(view[..done], 1, start);
    }
    FillNothing(view[..done], 1, start, values);
    assert view == view[..done] + view[done..];
  }

  /** One step of the cursor at row done + 1: an eligible cell takes value i,
      any other cell is passed over. */
  lemma FillingStep(g: Grid, h: Grid, rows: nat, col: int, start: int, values: seq<Cell>, done: nat, i: nat, written: int)
    requires Filling(g, h, rows, col, start, values, done, i, written) && done < rows && i < |values|
    ensures At(h, done + 1, col).None? && start <= done + 1 ==>
              Filling(g, Put(h, done + 1, col, values[i]), rows, col, start, values, done + 1, i + 1, done + 1)
    ensures !(At(h, done + 1, col).None? && start <= done + 1) ==>
              Filling(g, h, rows, col, start, values, done + 1, i, written)
  {
    var view := Column(g, rows, col);
    FillColumnStep(h, rows, col, view, start, values, done, i);
    if At(h, done + 1, col).None? && start <= done + 1 {
      FillingTake(g, h, rows, col, start, values, done, i, written);
    }
  }

  /** The cursor writes value i into the eligible row done + 1. */
  lemma FillingTake(g: Grid, h: Grid, rows: nat, col: int, start: int, values: seq<Cell>, done: nat, i: nat, written: int)
    requires Filling(g, h, rows, col, start, values, done, i, written) && done < rows && i < |values|
    requires i + 1 == Min(|values|, Empties(Column(g, rows, col)[..done + 1], 1, start))
    requires Column(Put(h, done + 1, col, values[i]), rows, col)
             == Fill(Column(g, rows, col)[..done + 1], 1, start, values) + Column(g, rows, col)[done + 1..]
    ensures Filling(g, Put(h, done + 1, col, values[i]), rows, col, start, values, done + 1, i + 1, done + 1)
  {
    var h' := Put(h, done + 1, col, values[i]);
    assert forall p {:trigger p in h'} :: p in h' ==> p in h || p == (done + 1, col);
  }

  /** A walk that has reached the last row, or has placed every value, has
      filled the column. */
  lemma FillingEnd(g: Grid, h: Grid, rows: nat, col: int, start: int, values: seq<Cell>, done: nat, i: nat, written: int)
    requires Filling(g, h, rows, col, start, values, done, i, written) && (done == rows || i == |values|)
    ensures Column(h, rows, col) == Fill(Column(g, rows, col), 1, start, values)
  {
    var view := Column(g, rows, col);
    assert view == view[..done] + view[done..];
    FillSplit(view[..done], view[done..], 1, start, values);
    FillNothing(view[done..], done + 1, start, values[i..]);
  }

  /** A fill with no values left, or of cells none of which is eligible,
      changes nothing. */
  lemma {:induction false} FillNothing(view: seq<Cell>, row: int, start: int, values: seq<Cell>)
    requires values == [] || Empties(view, row, start) == 0
    ensures Fill(view, row, start, values) == view
    decreases |view|
  {
    if view != [] && values != [] {
      FillNothing(view[1..], row + 1, start, values);
    }
  }

  /** Cells above row `start` are never eligible. */
  lemma {:induction false} NoEmptiesAbove(view: seq<Cell>, row: int, start: int)
    requires row + |view| <= start
    ensures Empties(view, row, start) == 0
    decreases |view|
  {
    if view != [] {
      NoEmptiesAbove(view[1..], row + 1, start);
    }
  }

  /** A fill of values that are not None leaves min(|values|, eligible cells)
      fewer eligible cells. */
  lemma {:induction false} FillCount(view: seq<Cell>, row: int, start: int, values: seq<Cell>)
    requires forall j :: 0 <= j < |values| ==> values[j].Some?
    ensures Empties(view, row, start)
            == Empties(Fill(view, row, start, values), row, start) + Min(|values|, Empties(view, row, start))
    decreases |view|
  {
    if view != [] && values != [] {
      var w := Fill(view, row, start, values);
      if Eligible(view, row, start, 0) {
        FillCount(view[1..], row + 1, start, values[1..]);
        assert w[1..] == Fill(view[1..], row + 1, start, values[1..]);
      } else {
        FillCount(view[1..], row + 1, start, values);
        assert w[1..] == Fill(view[1..], row + 1, start, values);
      }
    }
  }

  /** The last row the "insert" loop of insert_values writes before it stops
      at a row outside 1..MaxRows, or 0 when it writes none. */
  function LastInserted(startRow: int, n: nat): (last: int)
    ensures 0 <= last <= MaxRows
    ensures last > 0 <==> n > 0 && 1 <= startRow <= MaxRows
    ensures last > 0 ==> last == startRow + n - 1 || last == MaxRows < startRow + n - 1
  {
    if n == 0 || startRow < 1 || startRow > MaxRows then 0
    else if startRow + n - 1 <= MaxRows then startRow + n - 1
    else MaxRows
  }

  /** The loop of insert_values in "insert" mode, the same in the openpyxl and
      the xlwings backend: rows startRow, startRow + 1, ... of the column are
      set to the values in turn, until a row outside 1..MaxRows raises; the
      rows written before that keep their values. `last` is the last row
      written, 0 when none is. */
  method WriteDown(g: Grid, col: int, values: seq<Cell>, startRow: int) returns (h: Grid, ok: bool, last: nat)
    ensures ok <==> values == [] || (1 <= startRow && startRow + |values| - 1 <= MaxRows)
    ensures last == LastInserted(startRow, |values|)
    ensures forall row, c {:trigger At(h, row, c)} ::
      At(h, row, c)
      == if c == col && 1 <= startRow <= row < startRow + |values| && row <= MaxRows then values[row - startRow]
         else At(g, row, c)
    ensures forall p {:trigger p in h} :: p in h ==> p in g || (p.1 == col && 1 <= p.0 <= last)
  {
    h, last := g, 0;
    var saveRow := startRow;
    for k := 0 to |values|
      invariant saveRow == startRow + k
      invariant k > 0 ==> 1 <= startRow && saveRow - 1 <= MaxRows
      invariant forall row, c {:trigger At(h, row, c)} ::
        At(h, row, c) == if c == col && startRow <= row < saveRow then values[row - startRow] else At(g, row, c)
      invariant last == LastInserted(startRow, k)
      invariant forall p {:trigger p in h} :: p in h ==> p in g || (p.1 == col && 1 <= p.0 <= last)
    {
      if saveRow < 1 || saveRow > MaxRows {
        return h, false, last;
      }
      h := Put(h, saveRow, col, values[k]);
      last := saveRow;
      saveRow := saveRow + 1;
    }
    return h, true, last;
  }
}
